# News controller model

A Dafny model of the request handlers of `NewsController` in a small Express
news API (controller/news.controller.js). The handlers are:

- `getNews`: a paginated listing.
- `createNews`: creation of a record with an uploaded image.
- `getNewsById`: lookup of one record.
- `updateNews`: an update that only the record's owner may make.

The entity store is a class, `NewsStore.NewsController`. Its field `store`
maps ids to records (`title`, `body`, `image`, `userId`). Its field `nextId` is
the id the store will assign to the next record it inserts. `getNews`,
`createNews` and `updateNews` take a parsed `Request` and return a `Response`:
either one status with a JSON body shape, or `NoResponse` when the handler never
answers. `getNewsById` takes the parsed id alone and returns an optional
`Response`, which is `None` where the model leaves the answer open.
`createNews` and `updateNews` are methods that change the store. `getNews` and
`getNewsById` are functions that read it.

The collaborators the handlers call are parameters of the model:

- the schema validator is a function from the request body to `Passed(title, body)` or `Failed(errors)`;
- `imageValidator` is a function from `(size, mimetype)` to an optional message;
- the result of `generateRandomName()` is a `token` string;
- the result of `uploadFileLocally(image)` is a `storedName` string.

The model follows what the code does. In the first two points below this
differs from what the code itself suggests: the comment at line 19 ("validate
the correct page size and limit") and the fallback assignments `page = 1`
(line 21) and `limit = 10` (line 25). The three points after them are further
behaviour of the code that the model follows.

- A missing, non-numeric or zero `limit` becomes 1 (`Number(x) || 1`), not the
  10 of line 25.
- `page` and `limit` are `const`. So the "corrections" for a negative page, or
  for a limit that is negative or above 100, throw a TypeError. The handler then
  answers 500 "Something went wrong." instead of normalising the value.
- `updateNews` does not await the validation promise, so the update carries no
  validated column. An accepted image reaches the undefined `removeImage`, which
  ends in 500. On the remaining path the handler sends no response at all. The
  store is therefore never changed by `updateNews`.
- A non-owner gets 400 "User is unauthorized.". A missing record on update
  dereferences `null` and ends in 500. The code has no 403 or 404 path.
- The stored extension is `name.split(".")[1]`, the text between the first and
  the second dot. A name with no dot gets the extension "undefined".

## Model

| member | source | states |
|---|---|---|
| `Pagination.OrOne` | controller/news.controller.js:16-17 | JavaScript's `Number(x)` or else 1: absent, `NaN` or 0 becomes 1; any other number, negative ones included, is kept; the result is never 0 |
| `Pagination.CeilDiv` | controller/news.controller.js:33 | `Math.ceil(n / d)` as the least `r` with `n <= r * d`, i.e. `(r - 1) * d < n <= r * d` |
| `Pagination.Paginate` | controller/news.controller.js:16-33 | succeeds exactly when the raw page is absent/`NaN`/non-negative and the raw limit is absent/`NaN`/in 0..100; otherwise fails with the const-assignment TypeError; on success page >= 1, 1 <= limit <= 100, `skip = (page - 1) * limit >= 0` and `totalPages` is the ceiling of count / limit |
| `Pagination.PageAccepted` | controller/news.controller.js:16-22 | a raw page gets past the guard at line 20 exactly when the page after the fallback to 1 is at least 1 |
| `Pagination.LimitAccepted` | controller/news.controller.js:17-26 | a raw limit gets past the guard at line 24 exactly when the limit after the fallback to 1 lies in 1..100 |
| `Pagination.NoRecordsNoPages` | controller/news.controller.js:32-33 | with no records `totalPages` is 0 for every accepted page and limit |
| `Pagination.DefaultLimitIsOne` | controller/news.controller.js:17 | a missing or zero limit yields limit 1 and as many pages as records |
| `Pagination.PageOfPosition` | controller/news.controller.js:29-33 | record position `i` lies on page `i / limit + 1`, that page is between 1 and `totalPages`, and no other page holds it |
| `Pagination.PastLastPage` | controller/news.controller.js:29-33 | a page beyond `totalPages` has a skip at or past the record count |
| `Pagination.ZeroQueryOverTwentyFive` | controller/news.controller.js:16-33 | page=0, limit=0 over 25 records gives page 1, limit 1, skip 0, 25 pages |
| `Pagination.NegativePageThrows` | controller/news.controller.js:20-22 | page=-1 throws instead of becoming 1 |
| `FileNames.Split` | controller/news.controller.js:98 | `split` yields at least one piece, no piece holds the separator, and text without a separator is its own single piece |
| `FileNames.JoinSplit` | controller/news.controller.js:98 | joining the pieces of a split with the separator gives back the original name |
| `FileNames.SplitJoin` | controller/news.controller.js:98 | splitting a join of separator-free pieces gives back the pieces |
| `FileNames.Extension` | controller/news.controller.js:98 | `name.split(".")[1]` as text: never contains a dot, and is "undefined" for a name without a dot |
| `FileNames.StoredName` | controller/news.controller.js:99 | the stored name is the token, then a dot, then the original name's extension, which has no dot |
| `FileNames.ExtensionBetweenDots` | controller/news.controller.js:98 | the extension of `stem.ext[.rest]` is `ext`, the text between the first and second dot |
| `FileNames.NoDotExtension` | controller/news.controller.js:98-99 | a name without a dot has the extension "undefined" |
| `FileNames.StoredNameParts` | controller/news.controller.js:98-99 | with a dot-free token the stored name splits into exactly the token and the original extension, so the extension is preserved |
| `FileNames.StoredNameNonEmpty` | controller/news.controller.js:99 | the stored name is the token followed by a dot, hence never empty |
| `Query.SortedIds` | controller/news.controller.js:35-37 | the store's ids in strictly ascending order, each id exactly once |
| `Query.Window` | controller/news.controller.js:35-37 | `take`/`skip`: at most `take` elements, element `i` is `xs[skip + i]`, empty once `skip` reaches the end, exactly `min(take, len - skip)` elements otherwise |
| `Query.WindowHolds` | controller/news.controller.js:35-37 | position `i` is element `i % take` of the window that starts at `(i / take) * take` |
| `NewsStore.InIdOrder` | controller/news.controller.js:35-48 | the records of the store, one per id, in ascending id order |
| `NewsStore.ListPage` | controller/news.controller.js:35-37 | the `take`/`skip` query over the id order: at most `take` records, record `i` is the one at position `skip + i`, none once `skip` reaches the count, otherwise as many as remain up to `take` |
| `NewsStore.NewsController.GetNews` | controller/news.controller.js:13-67 | 200 exactly when the pagination guards pass, else 500 "Something went wrong."; on 200 the items are the query page for the pagination's skip and limit, and the metadata is its total, page and limit |
| `NewsStore.ListingOfGetNews` | controller/news.controller.js:16-61 | a 200 listing has `current_page` = page >= 1, `page_limit` = limit in 1..100, `totalPages` the ceiling of count / limit, at most `limit` items, and exactly the records at positions `skip`, `skip + 1`, ... of the id order |
| `NewsStore.EveryRecordOnItsPage` | controller/news.controller.js:29-61 | every stored record is listed: position `i` is item `i % limit` of page `i / limit + 1`, and that page is within `totalPages` |
| `NewsStore.NewsController.GetNewsById` | controller/news.controller.js:139-157 | a record that exists is answered with 200 and that record; a missing one is left open |
| `NewsStore.HasFiles` | controller/news.controller.js:79 | `Object.keys(req.files).length !== 0` as a fact about keys: `req.files` is present and some field name is in it |
| `NewsStore.HasImage` | controller/news.controller.js:86 | a file under `image`; having one implies `req.files` is non-empty, so it passes the check at line 79 |
| `NewsStore.CreateAccepted` | controller/news.controller.js:75-95 | the guards of `createNews` all pass: the schema, an `image` field and no message from `imageValidator`; an accepted request also passes the non-empty `req.files` check of line 79, which the predicate does not test separately |
| `NewsStore.NewRecord` | controller/news.controller.js:108-114 | the inserted record has the validated title and body, `user_id` set to the principal's id, and as `image` the token, a dot and the original extension |
| `NewsStore.NewsController.CreateNews` | controller/news.controller.js:70-132 | schema failure gives 400 with the errors; then an absent or empty `req.files` gives 400 "Image field is required."; then a missing `image` field gives 500; then an image error gives 400 `{errors:{image}}`; every rejection leaves the store unchanged; on success a record with the validated fields, the stored image name and the principal's id is inserted under a fresh id, nothing else changes, the answer is 201 with it, and a lookup of that id returns it |
| `NewsStore.ApplyPatch` | controller/news.controller.js:216-221 | an update sets each column the payload carries to the payload's value, keeps every column the payload leaves out and the owner, and an empty payload leaves the record as it was |
| `NewsStore.NewsController.UpdateNews` | controller/news.controller.js:166-232 | a missing record or `NaN` id gives 500; a principal who is not the owner gets 400 "User is unauthorized." whatever the files; an owner's invalid image gives 400 `{errors:{image}}`, a valid one 500; without an image no response is sent; the store is unchanged on every path |

## Left out

- Prisma: the store is the in-memory map. Its count is the map's size. `findMany` is a take/skip over the records in id order, since the code passes no `orderBy` and the model assumes id order. `create` assigns the next autoincrement id. Failures of the database calls, which would answer 500, are not modelled.
- The `include: { user: ... }` owner projection and `NewsApiTransform.transform`: this transformer is not part of this model. The listing and the lookup return the stored records as they are, before any transformation.
- NewsStore.NewsController.GetNewsById: the answer for a missing record, and for an id that is `NaN` (`None`), is left unspecified (`None`). It depends on what Prisma does with a `NaN` id and on what the transformer does with `null`.
- The `@vinejs/vine` schema and `newsSchema`: these are replaced by a pass/fail function passed in. In `updateNews` the validation promise is never awaited. The model does not consult the validator there, and the unhandled rejection of an invalid body is not modelled.
- NewsStore.NewsController.UpdateNews: Prisma receives the un-awaited promise as `data`. The model reads that as an update with no columns, which changes nothing. A Prisma that rejected such an argument would answer 500 instead; that is not modelled.
- `imageValidator`, `generateRandomName` and `uploadFileLocally` are not part of this model. Their thresholds, allowed types and token format are not visible, so their results are parameters.
- The file write through `image.mv`, its callback that throws, and the disk write of `uploadFileLocally`: this is filesystem I/O with fire-and-forget error handling. Orphaned files are not modelled either.
- `Number()` on fractional or other non-integer text, and `Math.ceil` on floating point: raw values are integers or `None` for `NaN`, and the ceiling is integer division. Raw values are taken to be exact integers: JavaScript numbers beyond 2^53, where `(page - 1) * limit` rounds and Prisma may reject the value with 500, are not modelled.
- `req.user` is assumed present. The principal's id and `user_id` are both integers, so `!==` is integer inequality. A string-against-number mismatch is not modelled.
- Several files uploaded under `image` (an array in `req.files`) are not modelled.
- Concurrency: each handler is modelled as one atomic step over one state of the store. Other requests that run between the awaits are not modelled: between `count()` (line 32) and `findMany` (line 35) in `getNews`, and between `findUnique` (line 173) and `update` (line 216) in `updateNews`. So the agreement between `totalPages` and the items that `NewsStore.ListingOfGetNews` proves holds only when no other request interleaves.
- `console.log` calls and the Express `res` object: a response is a `Response` value.
