# Post service model

A Dafny model of the blog-post service of a NestJS news portal
(`src/post/post.service.ts`). The service stores posts in one relational table
and offers seven operations, five of which are modelled (`findAll` and
`search` are listed under "## Left out"):

- create a post owned by the calling user;
- update a post;
- remove a post, which only its owner may do;
- read a post by id, which counts one view;
- list all posts by popularity.

When a post is created or updated, its description is taken from its
structured body. It is the text of the first block whose type is
`"paragraph"`, or the empty string.

The model has two modules:

- `Wrappers` (`wrappers.dfy`): `Option` and `Outcome`, the shapes of "maybe a
  row" and "passed, or failed with an error".
- `Posts` (`post_service.dfy`): the data model (`Block`, `Post`, `PostDto`,
  `Error`), the pure description derivation, and the class `PostService`.
  The class owns the table as a field `table: map<int, Post>` and the next id
  the store hands out as `nextId`. Its methods update these fields in place,
  as the repository calls in the source do.

The repository library's calls (`save`, `update`, `delete`, `findOne` and the
query builder's `views + 1` update) are modelled as plain map operations:
insert under a fresh id, overwrite, remove, lookup. This is an assumption about
a library whose code is not part of this model. Three more assumptions follow
from files that are not part of this model:

- The post entity file is not part of this model. A new row is assumed to
  start with 0 views.
- The owning user's id is assumed to be stored on the row. At line 116, `remove`
  loads the row without asking for the `user` relation, yet line 121 reads
  `find.user.id`.
- The DTO files are not part of this model. An update payload is assumed to
  carry title, body and tags, just as a create payload does.

`findOne` does not throw for an absent id. The view increment at lines 85-92
matches no row, and the lookup at line 93 returns `undefined`, so the model
returns `None`.

## Model

| member | source | states |
|---|---|---|
| `Posts.FirstParagraph` | src/post/post.service.ts:21-22 | the index found is a paragraph block with no paragraph before it; when none is found, no block is a paragraph |
| `Posts.Description` | src/post/post.service.ts:21-29 | "" when the body has no paragraph; otherwise the first paragraph's text, with a missing text giving ""; a non-empty result is always the text of the first paragraph |
| `Posts.DescriptionIgnoresLaterBlocks` | src/post/post.service.ts:21-22 | two bodies that agree up to and including the first paragraph have the same description, so later paragraphs are never consulted |
| `Posts.DescriptionSkipsLeadingBlocks` | src/post/post.service.ts:21-22 | putting non-paragraph blocks in front of a body does not change its description |
| `Posts.DescriptionIgnoresAppended` | src/post/post.service.ts:103-104 | appending any blocks, paragraphs among them, after a body that already has a paragraph leaves the description derived for an update unchanged |
| `Posts.InsertByViews` | src/post/post.service.ts:43 | inserting a row into a list ordered by descending views keeps it ordered; the row is placed once, after every row with at least as many views and before the first row with fewer |
| `Posts.ListsInsert` | src/post/post.service.ts:42-44 | adding one row under a new id to a listing keeps it a listing: ordered by views, each id once, every listed id covered |
| `Posts.PostService.constructor` | src/post/post.service.ts:15-18 | the service wraps an existing table whose rows are stored under their own ids, all below the next fresh id |
| `Posts.PostService.Create` | src/post/post.service.ts:20-31 | exactly one new row under the fresh id; title, body and tags as given, owner = userId, the derived description, 0 views; every old row unchanged |
| `Posts.PostService.FindOne` | src/post/post.service.ts:84-94 | existing id: that row's views go up by exactly 1, nothing else changes, and the updated row is returned; absent id: nothing changes, no row is returned, no failure |
| `Posts.PostService.Update` | src/post/post.service.ts:96-113 | absent id: NotFound, table unchanged, so no row is created; existing id: title, body, tags, owner (= userId) and description replaced on that row only, whoever owned it before |
| `Posts.PostService.Remove` | src/post/post.service.ts:115-126 | absent id: NotFound, checked first; another user's row: Forbidden; both leave the table unchanged; the owner's row: only that id is deleted |
| `Posts.PostService.GetPopularPosts` | src/post/post.service.ts:41-49 | every row exactly once, stored as in the table, in non-increasing order of views; total = number of rows |
| `Posts.CreateThenRemove` | src/post/post.service.ts:115-126 | a post just created by its author: another user's remove returns Forbidden, the author's remove returns Pass, and the table ends as it was before the create |

## Left out

- `search` (src/post/post.service.ts:51-82): its meaning lies in SQL `ILIKE` matching, `limit`/`take` pagination and parameter binding in the database. It joins on the alias `posts.user` while the builder's alias is `p`, so what it does at run time cannot be read from this file.
- `findAll` (src/post/post.service.ts:33-39): a single library call that orders by the database-generated `createAt` timestamp. The timestamp is not part of the row model, because it comes from the database clock.
- The `views + 1` update is atomic at the storage layer. The model treats it as an ordinary sequential update and does not model concurrent requests.
- NestJS dependency injection, decorators, async/await and the mapping of NotFound and Forbidden to HTTP responses are not modelled. The exception messages are not modelled either.
- Ids are handed out by a counter, `nextId`, standing in for the database's generated key. Which values the database actually uses is not modelled. The `+id` number conversion is not modelled: ids are integers throughout.
- A body block's `data.text` is modelled as an optional string. A `data.text` of some other JavaScript type is not modelled.
- The library's return values for update and delete (the affected-row counts) are reduced to `Pass`.
- Posts.PostService.GetPopularPosts: rows with equal views may come back in any order. The database gives no order for ties either.
