# Feed reactions, reading lists and account forms — a Dafny model

This project models the client-side decision logic of a mobile news reader.

- **Feed screen.** Module `HomeScreenState` holds class `HomeScreen`. Its handlers keep two server-held relations in step with the local article list:
  - a reader's single like/dislike on an article (`handleInteraction`);
  - an article's membership of one reading list (`handleAddArticleToReadingList`).
- **Pure meaning of the handlers.** Module `Feed` gives what each handler decides. Module `FeedProperties` proves the promised behaviour about it.
- **Article form.** Module `ArticleForm` models the tag and category selection: toggling an id and seeding the selection from the edited article.
- **Account forms.** Modules `Register` and `Login` model the registration and login decisions: the password check, which toast and message appear, and whether the screen navigates or signs in.
- **Shared helpers.** `RelationSet` holds the `find`/`findIndex`/`filter` scans. `Messages` holds the JavaScript message fallbacks (`list[0]`, `error.message || …`). `Toasts` is the toast log entry. `Taxonomy` holds the tag and category records.

Every remote call is a parameter describing its outcome.

- A DELETE is awaited and never inspected (`DeleteThrew | DeleteAnswered`).
- The interaction POST either throws or answers with an `ok` flag and a body. The body is appended whatever the flag says.
- The reading-list POST either throws, creates an item, or is rejected with an optional `non_field_errors` list.

A toast is recorded as its type and title. For register and login the detail line is also returned, because choosing it is the logic there. The session token matters only through its truthiness.

Three behaviours of the code shape the model:

- **No partial updates.** `setArticles` runs only after every await (screens/HomeScreen.tsx:186). A throw anywhere, even between the DELETE and the POST of a switch, therefore leaves `articles` exactly as it was. `HandleInteraction` states that.
- **Errors are throws, not HTTP statuses.** Only a thrown exception is a failure in the reaction path and for the reading-list DELETE; their responses' status is never read. A non-`ok` interaction POST body is appended as if it were an interaction (`FeedProperties.OkIgnored`).
- **At most one reaction is conditional.** The handler finds the existing reaction by its `news_article` field. The mirror therefore keeps at most one reaction only while every held interaction refers to the article. That holds when the server's answer refers to the article. `FeedProperties.AtMostOneReaction` and the last postcondition of `HandleInteraction` state the invariant under that condition.

## Model

| member | source | states |
|---|---|---|
| RelationSet.FindFirst | screens/HomeScreen.tsx:108-110 | the index returned is the first whose element satisfies the predicate; none is returned exactly when no element does |
| RelationSet.Filter | screens/HomeScreen.tsx:135 | the result keeps exactly the elements satisfying the predicate and is no longer than the input |
| RelationSet.FilterAppend | components/forms/NewsArticleForm.tsx:63 | filtering distributes over concatenation, so kept elements stay in their original order |
| RelationSet.FilterNoDuplicates | components/forms/NewsArticleForm.tsx:63 | filtering a duplicate-free sequence leaves it duplicate-free |
| ArticleForm.Toggle | components/forms/NewsArticleForm.tsx:62-64 | an absent id is appended at the end with the rest unchanged; a present id has every occurrence removed and nothing else (multiset) |
| ArticleForm.ToggleRemoveKeepsOrder | components/forms/NewsArticleForm.tsx:63 | removing an id keeps the ids before its first occurrence, then the rest with every later occurrence dropped, all in their original order |
| ArticleForm.FilterAroundFirst | components/forms/NewsArticleForm.tsx:63 | `filter(x => x !== id)` over a sequence whose first `id` follows `before` keeps `before` whole and filters only what follows |
| ArticleForm.ToggleTwice | components/forms/NewsArticleForm.tsx:62-64 | two toggles restore the id's membership, and restore the exact selection when the id was absent |
| ArticleForm.ToggleNoDuplicates | components/forms/NewsArticleForm.tsx:62-64 | a duplicate-free selection stays duplicate-free after a toggle |
| ArticleForm.ToggleTag | components/forms/NewsArticleForm.tsx:61-65 | toggles the tag selection only; categories, title and content are unchanged |
| ArticleForm.ToggleCategory | components/forms/NewsArticleForm.tsx:67-71 | toggles the category selection only; tags, title and content are unchanged |
| ArticleForm.TagIds | components/forms/NewsArticleForm.tsx:30 | the selection holds the tags' ids, one per tag, in order |
| ArticleForm.CategoryIds | components/forms/NewsArticleForm.tsx:31 | the selection holds the categories' ids, one per category, in order |
| ArticleForm.InitialForm | components/forms/NewsArticleForm.tsx:26-38 | with initial data, title, content and both selections are copied from it in order; without it, everything is empty |
| Feed.OrZero | screens/HomeScreen.tsx:113 | a missing counter reads as 0; a present one reads as its value |
| Feed.Decrement | screens/HomeScreen.tsx:131 | `max(0, n-1)`: never negative, one less from 1 upwards, 0 otherwise |
| Feed.WithReaction | screens/HomeScreen.tsx:188-193 | only the two counters and the interaction list of the article are replaced; every other field is kept |
| Feed.ReactTo | screens/HomeScreen.tsx:120-184 | the reconciler fails only when a DELETE or POST threw; on success the mirror grows by at most one, and holds only interactions it held before or the POST body |
| Feed.ToggleMembership | screens/HomeScreen.tsx:214-268 | with an item held for the list, the result is a removal exactly when the DELETE returned and a failure exactly when it threw; without one, never a removal, and an addition exactly when the POST created an item, carrying that item; "already added" needs a rejection whose `non_field_errors` holds the uniqueness message |
| Feed.ApplyMembership | screens/HomeScreen.tsx:224-235 | only entries with the article's id get their reading-list items replaced; every other entry and the length are unchanged |
| Feed.ItemsAfter | screens/HomeScreen.tsx:229-262 | a removal drops every item with that id and keeps all others; an addition appends the item after the unchanged items; any other decision keeps the items |
| Feed.MembershipToast | screens/HomeScreen.tsx:222-271 | an error toast exactly on failure, an info toast exactly on "already added", a success toast exactly on removal or addition |
| FeedProperties.ToggleOff | screens/HomeScreen.tsx:124-135 | same kind: the interaction is filtered out by id and only the matching counter becomes max(0, n-1) |
| FeedProperties.Switch | screens/HomeScreen.tsx:137-166 | other kind: the old interaction is filtered out, its counter floored-decremented, the POST body appended, and the requested counter incremented |
| FeedProperties.FirstReaction | screens/HomeScreen.tsx:167-184 | no interaction for the article: the POST body is appended, the requested counter is incremented, the other is kept |
| FeedProperties.ReactionFails | screens/HomeScreen.tsx:123-200 | the handler fails exactly when the DELETE it issues throws, or the POST it issues throws |
| FeedProperties.OkIgnored | screens/HomeScreen.tsx:150-165 | the POST's `ok` flag does not affect the result |
| FeedProperties.CountersStayNonNegative | screens/HomeScreen.tsx:130-147 | counters that start non-negative stay non-negative |
| FeedProperties.AtMostOneReaction | screens/HomeScreen.tsx:121-184 | one-or-zero interactions for the article stay one-or-zero; zero remain exactly after a toggle-off; otherwise the one left is the POST body |
| FeedProperties.CardShowsReaction | components/NewsArticleCard.tsx:29-30 | after the handler, the card shows the requested kind unless it was toggled off, and never the other kind |
| FeedProperties.LikeLikeDislike | screens/HomeScreen.tsx:121-184 | 5/2 likes/dislikes: like gives 6/2 with one interaction, like again gives 5/2 with none, dislike gives 5/3 with one |
| FeedProperties.ReactTwice | screens/HomeScreen.tsx:121-184 | from no reaction, the same kind twice with a fresh interaction for the article returns the mirror and both counters to where they started |
| FeedProperties.MembershipRemoves | screens/HomeScreen.tsx:214-235 | when the article has an item for the list, that item's id is removed and a "Removido" success toast is shown |
| FeedProperties.MembershipCreates | screens/HomeScreen.tsx:236-267 | with no item for the list: a created item is added with a success toast; the uniqueness rejection shows the info toast; any other rejection or throw fails with an error toast |
| FeedProperties.MembershipDeleteThrows | screens/HomeScreen.tsx:217-221 | an item held for the list with a DELETE that throws fails with the error toast and leaves the article list exactly as it was |
| FeedProperties.NoChangeUnlessDecided | screens/HomeScreen.tsx:246-252 | "already added" and every failure leave the article list exactly as it was |
| FeedProperties.MembershipTwice | screens/HomeScreen.tsx:214-266 | add then remove for the same list: the article is no longer in that list, and is exactly as before when the new item's id was unused |
| HomeScreenState.HomeScreen.constructor | screens/HomeScreen.tsx:48-49 | the screen starts with the session token, the given articles and empty toast and alert logs |
| HomeScreenState.HomeScreen.HandleInteraction | screens/HomeScreen.tsx:102-201 | no token: only an alert; unknown id: nothing; a throw: articles unchanged and an error toast; otherwise only the found slot is rewritten with the reconciled article; the single-reaction invariant is preserved |
| HomeScreenState.HomeScreen.HandleAddArticleToReadingList | screens/HomeScreen.tsx:203-273 | no token: an error toast and nothing else; otherwise the decision's toast is logged and the list is updated only for the article's id |
| Messages.First | screens/RegisterScreen.tsx:37-40 | `list[0]` is undefined exactly on an empty list, else the first element |
| Messages.ThrownMessage | screens/RegisterScreen.tsx:46 | a non-empty thrown message is shown, otherwise the fallback |
| Register.ErrorMessage | screens/RegisterScreen.tsx:37-41 | with no error field present the fixed default is shown; any other message shown is one the server sent in a present field |
| Register.HandleRegister | screens/RegisterScreen.tsx:16-48 | mismatched passwords: error toast and no request; `ok`: success toast and navigation to Login (only then); failure: the chained message; a throw: its message or the fallback |
| Register.ErrorPriority | screens/RegisterScreen.tsx:37-41 | username before email before password before non-field errors, else the fixed default; an empty list in the chosen field yields undefined |
| Login.HandleLogin | screens/LoginScreen.tsx:17-39 | `signIn` is called exactly on an `ok` answer, with `data.token`, after a success toast; otherwise `non_field_errors[0]` or the invalid-credentials default; a throw shows its message or the fallback |

## Left out

- Network plumbing is not modelled: fetch, JSON parsing, URLs, headers and the token's value. Each call is an outcome parameter. A failed `response.json()` counts as a throw.
- Loading the article and reading-list collections (screens/HomeScreen.tsx:55-100) is I/O. Each load is a single fetch that replaces the state.
- The reading-list name in the membership toasts' detail line is not modelled. Toasts on the feed screen are recorded by type and title only.
- Async interleavings are not modelled. Calls run strictly one after another. This leaves out:
  - the `articleIndex` captured before the awaits and used against a newer `prevArticles` (screens/HomeScreen.tsx:108, 188);
  - rapid double taps;
- Aliasing is not modelled, because articles are values. The `push` at screens/HomeScreen.tsx:183 also mutates the array shared with the previous state snapshot. The committed `articles` is the same either way.
- The `non_field_errors` value is taken to be a list of strings. If it were a string, `includes` would do a substring search, and register's `data.username[0]` would pick a character.
- Login.HandleLogin: does not model `signIn` itself throwing. Only its storage write can throw. The source would then show an error toast after the success toast.
- React rendering is not modelled. That covers the navigation, styles, the modal that picks the article, and the form's submit with its tag and category fetches.
- The authentication context's storage and the plain CRUD screens and forms are not part of this model.
