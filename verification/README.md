# Blog backend: aggregation helpers and blog resource rules

This project models, in Dafny, the two parts of a small blog backend (an
Express and Mongoose application) that carry real logic.

1. **Aggregation helpers** (`utils/list_helper.js`), in module `ListHelper`.
   These are pure functions over a sequence of blog documents
   `{_id, title, author, url, likes, __v}`:
   - `totalLikes` sums the likes.
   - `favoriteBlog` reduces to the most liked blog and strips `_id`, `url` and `__v`.
   - `mostBlogs` names the author with the most blogs.
   - `mostLikes` names the author with the most likes in total.
   - `dummy` always answers 1.

   Module `Extrema` holds the two library maximum functions they rely on:
   lodash's `maxBy` and JavaScript's `Math.max`.
2. **Blog resource handlers** (`controllers/blogs.js`), in module
   `BlogsController`. These are operations on an abstract store:
   - blogs are a `map<BlogId, Blog>`, and each blog has an optional owner;
   - each user holds a `seq<BlogId>` of the blogs it created.

   The operations are:
   - `Create` (POST `/`): validates the draft and saves the blog, then appends
     its id to the caller's list.
   - `Delete` (DELETE `/:id`): checks that the blog exists and that the caller
     owns it.
   - `Update` (PUT `/:id`): overwrites `likes` only.
   - `Get` (GET `/:id`): looks a blog up.

   `Create`, `Delete` and `Update` return the new store together with an
   `Outcome`; `Get`, which writes nothing, returns only the `Outcome`. The
   outcome records which response is sent, and `Status` maps it to the HTTP
   status code.

The caller's identity is a plain `UserId` parameter. Token decoding happens
before the handlers run and is not modelled. The document store normally picks
the id of a new blog; here the fresh id is a parameter with
`requires id !in s.blogs`.

Decisions the code forces:

- **`favoriteBlog` breaks ties by taking the last blog.** The reduction keeps
  its candidate only when `max.likes > blog.likes`, so an equally liked later
  blog replaces it (`utils/list_helper.js:14`). This differs from `maxBy`
  over authors, where the first maximal key wins. `FavoriteIsLastMaximal` and
  `FavoriteTieGoesToLater` state this tie-break.
- **Ties between authors go to the author who appears first.** lodash's
  `maxBy` replaces its candidate only on a strictly greater value, so among
  equal authors it keeps the first one in key order. The model takes key order
  to be the order in which authors first appear in the input. That choice is
  `Authors`, and `AuthorsInFirstAppearanceOrder` proves it.
- **`mostBlogs` computes its two fields separately.** It takes `maxKey` from
  `maxBy` and `maxValue` from `Math.max`. `MostBlogs` proves that the two
  agree: `blogs` is the chosen author's own count.
- **Create can fail after the blog is saved.** If the caller has no user
  record, `User.findById` yields null. The handler then throws at `user.blogs`
  (`controllers/blogs.js:37`), and by that point the blog is already saved.
  `Create` models this as written: the outcome is `Unhandled`, the new blog is
  stored, no user record changes, and the store holds a blog that its owner
  does not list. `CreateByUnknownCallerLeavesOrphan` proves this.
- **Delete throws on a blog without an owner.** The handlers never check
  that a stored blog has a `user`, and blogs can reach the store without
  passing through POST, as the API tests insert theirs directly
  (`tests/blog_api.test.js:15`). The owner check throws for such a blog (`controllers/blogs.js:51`). `Delete` answers
  `Unhandled` and leaves the store unchanged (`DeleteOwnerlessBlog`).
- **Delete never touches the owner's list of blog ids.** The id stays behind
  (`DeleteLeavesIdInOwnersList`).
- **A missing id gives null with status 200 for both GET and PUT**
  (`Get`, `UpdateMissingBlog`).

## Model

| member | source | states |
|---|---|---|
| ListHelper.Dummy | utils/list_helper.js:2-4 | `dummy` answers 1 |
| ListHelper.TotalLikes | utils/list_helper.js:6-8 | the left-to-right reduction from 0 yields the arithmetic sum of the `likes` fields |
| ListHelper.TotalLikesOfNothing | utils/list_helper.js:7 | an empty sequence of blogs totals 0 likes |
| ListHelper.SumLikesConcat | utils/list_helper.js:7 | the total of two sequences put together is the sum of their totals |
| ListHelper.FavoriteIndex | utils/list_helper.js:14 | the reduction ends on a blog with at least as many likes as any blog, and every later blog has strictly fewer |
| ListHelper.FavoriteBlog | utils/list_helper.js:10-20 | the result is the sentinel 0 exactly when there are no blogs; otherwise it is the projection of a maximal blog with no equally liked blog after it |
| ListHelper.FavoriteIsLastMaximal | utils/list_helper.js:14 | conversely, the last maximal blog is the one returned, even when earlier blogs tie with it |
| ListHelper.FavoriteTieGoesToLater | utils/list_helper.js:14 | of two equally liked blogs the second is the favourite |
| ListHelper.Project | utils/list_helper.js:15-17 | the summary of a document carries its title, author and likes unchanged; `_id`, `url` and `__v` have no place in it |
| ListHelper.ProjectKeepsOnlyVisibleFields | utils/list_helper.js:15-17 | the projection keeps title, author and likes unchanged and forgets `_id`, `url` and `__v`: two documents project alike exactly when those three fields agree |
| ListHelper.PostsBy | utils/list_helper.js:46 | the group filed under an author holds only blogs by that author and is no longer than the input |
| ListHelper.PostsByIsFilter | utils/list_helper.js:46 | an author's group holds exactly the blogs that author wrote |
| ListHelper.PostsByAppend | utils/list_helper.js:46 | a blog added at the end joins its own author's group and no other |
| ListHelper.CountBy | utils/list_helper.js:23 | the entry `countBy` makes for an author: the number of blogs in that author's group |
| ListHelper.LikesBy | utils/list_helper.js:50-52 | the likes one group's reduction from 0 adds up: the total likes of the blogs that author wrote |
| ListHelper.Authors | utils/list_helper.js:23 | the grouping keys are distinct; every author of a blog is a key, and every key wrote some blog |
| ListHelper.AuthorsInFirstAppearanceOrder | utils/list_helper.js:26 | an author earlier in key order first occurs earlier in the input |
| Extrema.FirstMaxIndex | utils/list_helper.js:26 | `maxBy` picks a maximal element, and no earlier element is as large |
| Extrema.Max | utils/list_helper.js:29 | `Math.max` returns an element of its arguments that no argument exceeds |
| Extrema.MaxAtFirstMaxIndex | utils/list_helper.js:26-29 | the element `maxBy` picks is `Math.max` of the same values |
| ListHelper.Counts | utils/list_helper.js:23-28 | the counted values come one per distinct author, in key order, each the number of blogs that author wrote |
| ListHelper.MostBlogs | utils/list_helper.js:22-37 | the named author wrote some blog, and `blogs`, taken from `Math.max` of the counts, is that author's own post count |
| ListHelper.MostBlogsIsMaximal | utils/list_helper.js:23-29 | no author has more posts than the named one, and every author earlier in first-appearance order has strictly fewer |
| ListHelper.MostBlogsFindsDominantAuthor | utils/list_helper.js:22-37 | an author with strictly more posts than every other author is the answer, with their count |
| ListHelper.Groups | utils/list_helper.js:45-54 | one `{author, likes}` object per distinct author, in key order, whose `likes` is the sum of that author's likes |
| ListHelper.Totals | utils/list_helper.js:55 | the values `maxBy(object => object.likes)` compares: one per distinct author, in key order, each that author's summed likes |
| ListHelper.MostLikes | utils/list_helper.js:39-60 | the named author wrote some blog, and `likes` is the sum of that author's likes |
| ListHelper.MostLikesIsMaximal | utils/list_helper.js:44-56 | no author's likes sum exceeds the named author's, and every author earlier in first-appearance order has a strictly smaller sum |
| ListHelper.MostLikesFindsDominantAuthor | utils/list_helper.js:44-56 | an author whose likes sum strictly exceeds every other author's is the answer, with that sum |
| ListHelper.LikesOverAppend | utils/list_helper.js:47-52 | adding a blog raises the per-author sums by its likes for its own author only |
| ListHelper.AuthorSumsAddUpToTotal | utils/list_helper.js:47-52 | the per-author sums of likes add up to the total likes |
| ListHelper.ThreeBlogsTwoAuthors | utils/list_helper.js:22-56 | for blogs by A (5 likes), A (3) and B (10): 18 likes in total, A has the most blogs (2), B the most likes (10) |
| BlogsController.Create | controllers/blogs.js:19-41 | status 400 exactly when the title or url is missing or empty; status 201 exactly when the draft is acceptable and the caller has a user record; a created blog is reported under the fresh id as stored; when the handler throws, no user record has changed |
| BlogsController.Truthy | controllers/blogs.js:23 | JavaScript truthiness of an optional string field: present and not the empty string |
| BlogsController.Acceptable | controllers/blogs.js:23 | a draft passes the POST validation exactly when both its title and its url are truthy |
| BlogsController.Status | controllers/blogs.js:14-69 | the status each response sends: 201 for a created blog (line 40), 400 for a rejected draft, a missing blog or a foreign owner (lines 24, 48, 55), 200 for a delete, a read or an update (lines 14, 53, 69), and 500 for an escaping exception |
| BlogsController.ErrorMessage | controllers/blogs.js:48-55 | the `error` text of the two delete refusals, 'no blog for this id' and 'you are not allowed to delete this blog', and none for every other outcome |
| BlogsController.BlogFrom | controllers/blogs.js:28-34 | the blog built for a POST takes title, url and author from the body, takes `likes` from the body or 0 when absent, and has the caller as owner |
| BlogsController.CreateRejectsIncompleteDraft | controllers/blogs.js:22-25 | a draft without a title or url, or with an empty one, gets 400 and leaves blogs and users unchanged |
| BlogsController.CreateAddsExactlyOneBlog | controllers/blogs.js:28-36 | an acceptable draft adds one blog under the fresh id, so the store grows by one. The new blog has the caller as owner and takes title, url, author and likes from the draft. Every other blog is unchanged |
| BlogsController.CreateAppendsToCallersList | controllers/blogs.js:27-38 | a successful create appends exactly the new id to the end of the caller's list; no other user and no username changes |
| BlogsController.CreateDefaultsLikesToZero | controllers/blogs.js:32 | a draft without `likes` stores a blog with 0 likes |
| BlogsController.GetAfterCreate | controllers/blogs.js:28-36 | after an acceptable create, reading the fresh id gives the blog built from the draft |
| BlogsController.CreateByUnknownCallerLeavesOrphan | controllers/blogs.js:27-38 | a caller without a user record gets an escaping exception after the blog is saved and before any user is written: the blog is stored, the users are unchanged, and the store holds a blog that its owner does not list |
| BlogsController.CreateKeepsOwnersListing | controllers/blogs.js:33-38 | when the caller has a user record, create keeps every owned blog listed in its owner's list |
| BlogsController.Delete | controllers/blogs.js:43-58 | the blog is deleted exactly when it exists and its owner is the caller; the outcome is one of the four delete outcomes; users never change |
| BlogsController.DeleteMissingBlog | controllers/blogs.js:45-49 | an unknown id gets 400 with 'no blog for this id' and nothing changes |
| BlogsController.DeleteByOwner | controllers/blogs.js:51-53 | the owner's delete gets 200 and removes exactly that id; the store shrinks by one and all other blogs are unchanged |
| BlogsController.DeleteByNonOwner | controllers/blogs.js:54-56 | another caller gets 400 with 'you are not allowed to delete this blog' and the store is unchanged |
| BlogsController.DeleteOwnerlessBlog | controllers/blogs.js:45-51 | deleting a stored blog that has no owner throws in the owner check, whoever asks, and leaves the store unchanged (status 500) |
| BlogsController.GetAfterDelete | controllers/blogs.js:51-53 | after the owner's delete, reading the id gives null |
| BlogsController.CreateThenDelete | controllers/blogs.js:36-53 | creating a blog and deleting it as its creator restores the blog set, while the id remains in the creator's list |
| BlogsController.DeleteLeavesIdInOwnersList | controllers/blogs.js:52 | after the owner's delete the id is gone from the store but still in the owner's list |
| BlogsController.DeleteAndUpdateKeepOwnersListing | controllers/blogs.js:43-70 | delete and update keep every owned blog listed in its owner's list |
| BlogsController.Update | controllers/blogs.js:60-70 | status is always 200; a blog is returned exactly when the id exists; users and the set of ids are unchanged |
| BlogsController.UpdateChangesOnlyLikes | controllers/blogs.js:63-67 | the target blog gets the new likes and keeps its title, url, author and owner; every other blog is unchanged; the updated blog is returned |
| BlogsController.UpdateMissingBlog | controllers/blogs.js:67-69 | an unknown id changes nothing and answers null |
| BlogsController.GetAfterUpdate | controllers/blogs.js:63-67 | a read after an update sees the old blog with the new likes |
| BlogsController.Get | controllers/blogs.js:12-16 | status is always 200; a blog is returned exactly when the id is stored, and it is the stored blog |

## Left out

- HTTP routing, JSON serialisation and `console.log`: status codes survive only as `Status` of an `Outcome`.
- GET `/` (`controllers/blogs.js:6-10`): it returns every stored blog, which on a map-shaped store is just the whole map.
- The `populate('user', { username: 1 })` projection on reads: this is Mongoose behaviour, so `Get` returns the stored blog with its owner id.
- Token extraction (`middleware.userExtractor`) and its 401 answers: the middleware is not part of this model, so the caller is a plain `UserId`.
- Mongoose details: id casting (a malformed id throws), schema validation and document construction. The 400 answer of `Create` echoes the draft, not a Mongoose document with a generated `_id`.
- A POST body with `likes: null` is treated like one without `likes`. Mongoose would store null rather than apply the default.
- Store I/O failures, including a failure between the two writes of a create: create is one step. Its only modelled failure is the missing user record.
- BlogsController.Status: the status of an escaping exception (`Unhandled`) comes from an error handler that is not part of this model; it is taken to be 500.
- BlogsController.Update: `likes` is always a number; a PUT body without `likes` is not modelled, because what Mongoose does with an undefined update value is library behaviour.
- ListHelper.MostBlogs: requires at least one blog. With none, JavaScript answers an undefined author and `Math.max()` = -Infinity.
- ListHelper.MostLikes: requires at least one blog. With none, lodash's `maxBy` answers undefined.
- Likes are unbounded integers. JavaScript's floating-point numbers, `NaN` from a missing or non-numeric `likes`, and precision loss above 2^53 are not modelled.
- JavaScript object key order lists integer-like keys first, in numeric order. The model orders every author by first appearance.
- Authors are strings. lodash files a missing author under the key `"undefined"`, which is not modelled.
- ListHelper.FavoriteBlog: a document has exactly the six fields `_id`, `title`, `author`, `url`, `likes` and `__v`. The source's rest pattern would also keep any further field.
- The user and login handlers, password hashing and token signing are not part of this model.
