/** The blog resource handlers as operations on an abstract store: the
    validation, ownership and framing decisions of the router, without HTTP,
    persistence or token decoding. The caller's identity arrives already
    decoded, and the document store assigns fresh ids, so a fresh id is a
    parameter. */
module BlogsController {
  import opened Options

  type BlogId = string
  type UserId = string

  /** A stored blog. `owner` is the blog's `user` reference; documents put in
      the store other than through `Create` may lack one. */
  datatype Blog = Blog(title: string, author: Option<string>, url: string, likes: int, owner: Option<UserId>)

  /** A user account as far as blogs are concerned: the ids of the blogs it
      created, in creation order. */
  datatype User = User(username: string, blogs: seq<BlogId>)

  datatype Store = Store(blogs: map<BlogId, Blog>, users: map<UserId, User>)

  /** The fields of a request body the handlers read; each may be absent. */
  datatype Draft = Draft(title: Option<string>, author: Option<string>, url: Option<string>, likes: Option<int>)

  /** What a handler answers, tagged by the response it sends. */
  datatype Outcome =
    | Created(id: BlogId, blog: Blog)   // 201 with the saved blog
    | Rejected(draft: Draft)            // 400 echoing the rejected draft
    | NoSuchBlog                        // 400 {error: 'no blog for this id'}
    | NotAllowed                        // 400 {error: 'you are not allowed to delete this blog'}
    | Deleted                           // 200 with an empty body
    | Found(body: Option<Blog>)         // 200 with the blog, or null when there is none
    | Unhandled                         // an exception escapes the handler

  datatype Reply = Reply(store: Store, outcome: Outcome)

  /** The HTTP status of an outcome. An escaping exception is answered by the
      framework's error boundary, taken here to be 500. */
  function Status(o: Outcome): nat
  {
    match o
    case Created(_, _) => 201
    case Rejected(_) => 400
    case NoSuchBlog => 400
    case NotAllowed => 400
    case Deleted => 200
    case Found(_) => 200
    case Unhandled => 500
  }

  /** The `error` text of the JSON body, for the outcomes that carry one. */
  function ErrorMessage(o: Outcome): Option<string>
  {
    match o
    case NoSuchBlog => Some("no blog for this id")
    case NotAllowed => Some("you are not allowed to delete this blog")
    case _ => None
  }

  /** JavaScript truthiness of an optional string: present and not empty. */
  predicate Truthy(field: Option<string>)
  {
    field.Some? && field.value != ""
  }

  /** A draft the POST handler accepts: both its title and its url are
      present and non-empty. */
  predicate Acceptable(d: Draft)
  {
    Truthy(d.title) && Truthy(d.url)
  }

  /** The blog the POST handler builds from an acceptable draft: `likes`
      falls back to the schema default 0 when absent. */
  function BlogFrom(d: Draft, caller: UserId): (b: Blog)
    requires Acceptable(d)
    ensures b.title == d.title.value && b.url == d.url.value && b.author == d.author
    ensures d.likes.Some? ==> b.likes == d.likes.value
    ensures d.likes.None? ==> b.likes == 0
    ensures b.owner == Some(caller)
  {
    Blog(d.title.value, d.author, d.url.value, d.likes.GetOr(0), Some(caller))
  }

  /** POST `/`. An unacceptable draft is answered with 400 before anything
      is read or written. Otherwise the blog is saved, and then the caller's
      user record is looked up and its list extended; when no user record
      exists the lookup yields null and the handler throws after the save. */
  function Create(s: Store, caller: UserId, draft: Draft, id: BlogId): (r: Reply)
    requires id !in s.blogs
    ensures Status(r.outcome) == 400 <==> !Acceptable(draft)
    ensures Status(r.outcome) == 201 <==> Acceptable(draft) && caller in s.users
    ensures r.outcome.Created? ==> id in r.store.blogs && r.outcome == Created(id, r.store.blogs[id])
    ensures r.outcome == Unhandled ==> r.store.users == s.users
  {
    if !Acceptable(draft) then Reply(s, Rejected(draft))
    else
      var blogs := s.blogs[id := BlogFrom(draft, caller)];
      if caller !in s.users then Reply(s.(blogs := blogs), Unhandled)
      else
        var u := s.users[caller];
        Reply(Store(blogs, s.users[caller := u.(blogs := u.blogs + [id])]), Created(id, blogs[id]))
  }

  /** DELETE `/:id`. The owner check converts the blog's owner reference to
      a string, which throws for a blog without an owner. The owner's list of
      blog ids is not touched. */
  function Delete(s: Store, caller: UserId, id: BlogId): (r: Reply)
    ensures r.outcome in {NoSuchBlog, NotAllowed, Deleted, Unhandled}
    ensures r.outcome == Deleted <==> id in s.blogs && s.blogs[id].owner == Some(caller)
    ensures r.store.users == s.users
  {
    if id !in s.blogs then Reply(s, NoSuchBlog)
    else
      match s.blogs[id].owner
      case None => Reply(s, Unhandled)
      case Some(owner) =>
        if owner == caller then Reply(s.(blogs := s.blogs - {id}), Deleted)
        else Reply(s, NotAllowed)
  }

  /** PUT `/:id`: writes `likes` and nothing else, for any caller. A missing
      id updates nothing and answers null with status 200. */
  function Update(s: Store, id: BlogId, likes: int): (r: Reply)
    ensures Status(r.outcome) == 200 && r.outcome.Found?
    ensures r.outcome.body.Some? <==> id in s.blogs
    ensures r.store.users == s.users
    ensures r.store.blogs.Keys == s.blogs.Keys
  {
    if id !in s.blogs then Reply(s, Found(None))
    else
      var b := s.blogs[id].(likes := likes);
      Reply(s.(blogs := s.blogs[id := b]), Found(Some(b)))
  }

  /** GET `/:id`: the blog, or null, always with status 200. */
  function Get(s: Store, id: BlogId): (r: Outcome)
    ensures Status(r) == 200 && r.Found?
    ensures r.body.Some? <==> id in s.blogs
    ensures r.body.Some? ==> r.body.value == s.blogs[id]
  {
    Found(if id in s.blogs then Some(s.blogs[id]) else None)
  }

  // ---------------------------------------------------------------------
  // create

  /** A draft missing its title or url, or carrying an empty one, is turned
      away with 400 and changes nothing. */
  lemma CreateRejectsIncompleteDraft(s: Store, caller: UserId, draft: Draft, id: BlogId)
    requires id !in s.blogs
    requires draft.title.None? || draft.title == Some("") || draft.url.None? || draft.url == Some("")
    ensures Create(s, caller, draft, id) == Reply(s, Rejected(draft))
    ensures Status(Create(s, caller, draft, id).outcome) == 400
  {
  }

  /** An acceptable draft adds exactly one blog, under the fresh id, owned by
      the caller and built from the draft; every other blog stays as it was. */
  lemma CreateAddsExactlyOneBlog(s: Store, caller: UserId, draft: Draft, id: BlogId)
    requires id !in s.blogs
    requires Acceptable(draft)
    ensures var r := Create(s, caller, draft, id);
      && r.store.blogs.Keys == s.blogs.Keys + {id}
      && |r.store.blogs| == |s.blogs| + 1
      && (forall k :: k in s.blogs ==> r.store.blogs[k] == s.blogs[k])
      && r.store.blogs[id].owner == Some(caller)
      && r.store.blogs[id].title == draft.title.value
      && r.store.blogs[id].url == draft.url.value
      && r.store.blogs[id].author == draft.author
      && r.store.blogs[id].likes == draft.likes.GetOr(0)
  {
  }

  /** A successful create appends the new id, and only it, to the end of the
      caller's list of blogs; no other user changes. */
  lemma CreateAppendsToCallersList(s: Store, caller: UserId, draft: Draft, id: BlogId)
    requires id !in s.blogs
    requires Acceptable(draft) && caller in s.users
    ensures var r := Create(s, caller, draft, id);
      && r.outcome.Created?
      && r.store.users.Keys == s.users.Keys
      && r.store.users[caller].blogs == s.users[caller].blogs + [id]
      && r.store.users[caller].username == s.users[caller].username
      && (forall u :: u in s.users && u != caller ==> r.store.users[u] == s.users[u])
  {
  }

  /** Leaving `likes` out of the draft stores a blog with zero likes. */
  lemma CreateDefaultsLikesToZero(s: Store, caller: UserId, draft: Draft, id: BlogId)
    requires id !in s.blogs
    requires Acceptable(draft) && draft.likes.None?
    ensures Create(s, caller, draft, id).store.blogs[id].likes == 0
  {
  }

  /** A read after a successful create sees the blog built from the draft. */
  lemma GetAfterCreate(s: Store, caller: UserId, draft: Draft, id: BlogId)
    requires id !in s.blogs && Acceptable(draft)
    ensures Get(Create(s, caller, draft, id).store, id) == Found(Some(BlogFrom(draft, caller)))
  {
  }

  // ---------------------------------------------------------------------
  // delete

  /** Deleting an id the store does not hold fails with 'no blog for this id'
      and changes nothing. */
  lemma DeleteMissingBlog(s: Store, caller: UserId, id: BlogId)
    requires id !in s.blogs
    ensures Delete(s, caller, id).store == s
    ensures ErrorMessage(Delete(s, caller, id).outcome) == Some("no blog for this id")
    ensures Status(Delete(s, caller, id).outcome) == 400
  {
  }

  /** The owner's delete removes exactly that blog: the blog set shrinks by
      one and every other blog stays as it was. */
  lemma DeleteByOwner(s: Store, caller: UserId, id: BlogId)
    requires id in s.blogs && s.blogs[id].owner == Some(caller)
    ensures var r := Delete(s, caller, id);
      && Status(r.outcome) == 200
      && r.store.blogs.Keys == s.blogs.Keys - {id}
      && |r.store.blogs| == |s.blogs| - 1
      && (forall k :: k in r.store.blogs ==> r.store.blogs[k] == s.blogs[k])
  {
  }

  /** Anybody else's delete is refused with 'you are not allowed to delete
      this blog', and the store stays as it was. */
  lemma DeleteByNonOwner(s: Store, caller: UserId, id: BlogId)
    requires id in s.blogs && s.blogs[id].owner.Some? && s.blogs[id].owner != Some(caller)
    ensures Delete(s, caller, id).store == s
    ensures ErrorMessage(Delete(s, caller, id).outcome) == Some("you are not allowed to delete this blog")
    ensures Status(Delete(s, caller, id).outcome) == 400
  {
  }

  /** A blog without an owner makes the owner check throw, whoever asks; the
      blog stays stored and nothing else changes. */
  lemma DeleteOwnerlessBlog(s: Store, caller: UserId, id: BlogId)
    requires id in s.blogs && s.blogs[id].owner.None?
    ensures Delete(s, caller, id) == Reply(s, Unhandled)
    ensures Status(Delete(s, caller, id).outcome) == 500
  {
  }

  /** After the owner's delete a read answers null. */
  lemma GetAfterDelete(s: Store, caller: UserId, id: BlogId)
    requires id in s.blogs && s.blogs[id].owner == Some(caller)
    ensures Get(Delete(s, caller, id).store, id) == Found(None)
  {
  }

  /** Creating a blog and deleting it again as its creator restores the blog
      set, but the id stays behind in the creator's list. */
  lemma CreateThenDelete(s: Store, caller: UserId, draft: Draft, id: BlogId)
    requires id !in s.blogs
    requires Acceptable(draft) && caller in s.users
    ensures var r := Delete(Create(s, caller, draft, id).store, caller, id);
      && r.outcome == Deleted
      && r.store.blogs == s.blogs
      && r.store.users[caller].blogs == s.users[caller].blogs + [id]
  {
    var c := Create(s, caller, draft, id).store;
    assert c.blogs - {id} == s.blogs;
  }

  // ---------------------------------------------------------------------
  // update

  /** An update sets `likes` on the one blog and leaves its title, url,
      author and owner, every other blog and every user as they were. */
  lemma UpdateChangesOnlyLikes(s: Store, id: BlogId, likes: int)
    requires id in s.blogs
    ensures var r := Update(s, id, likes);
      && r.store.blogs[id].likes == likes
      && r.store.blogs[id].title == s.blogs[id].title
      && r.store.blogs[id].url == s.blogs[id].url
      && r.store.blogs[id].author == s.blogs[id].author
      && r.store.blogs[id].owner == s.blogs[id].owner
      && (forall k :: k in s.blogs && k != id ==> r.store.blogs[k] == s.blogs[k])
      && r.outcome == Found(Some(r.store.blogs[id]))
  {
  }

  /** Updating an id the store does not hold changes nothing and answers null. */
  lemma UpdateMissingBlog(s: Store, id: BlogId, likes: int)
    requires id !in s.blogs
    ensures Update(s, id, likes) == Reply(s, Found(None))
  {
  }

  /** What an update wrote is what a later read sees. */
  lemma GetAfterUpdate(s: Store, id: BlogId, likes: int)
    requires id in s.blogs
    ensures Get(Update(s, id, likes).store, id) == Found(Some(s.blogs[id].(likes := likes)))
  {
  }

  // ---------------------------------------------------------------------
  // the owner's list of blog ids

  /** Every blog with an owner is listed among its owner's blogs. */
  predicate OwnersListTheirBlogs(s: Store)
  {
    forall id :: id in s.blogs && s.blogs[id].owner.Some? ==>
      s.blogs[id].owner.value in s.users && id in s.users[s.blogs[id].owner.value].blogs
  }

  /** A create by a caller who has a user record keeps every owned blog
      listed, the new one included. */
  lemma CreateKeepsOwnersListing(s: Store, caller: UserId, draft: Draft, id: BlogId)
    requires id !in s.blogs && OwnersListTheirBlogs(s)
    requires caller in s.users
    ensures OwnersListTheirBlogs(Create(s, caller, draft, id).store)
  {
    var r := Create(s, caller, draft, id);
    if Acceptable(draft) {
      forall k | k in r.store.blogs && r.store.blogs[k].owner.Some?
        ensures r.store.blogs[k].owner.value in r.store.users
        ensures k in r.store.users[r.store.blogs[k].owner.value].blogs
      {
        var o := r.store.blogs[k].owner.value;
        if k != id {
          assert id in s.users[o].blogs + [id] && k in s.users[o].blogs;
        }
      }
    }
  }

  /** A create by a caller without a user record saves the blog and then
      fails before any user is written: the new blog is stored, no user
      record changes, and the blog's owner does not list it. */
  lemma CreateByUnknownCallerLeavesOrphan(s: Store, caller: UserId, draft: Draft, id: BlogId)
    requires id !in s.blogs && Acceptable(draft)
    requires caller !in s.users
    ensures Create(s, caller, draft, id).outcome == Unhandled
    ensures Create(s, caller, draft, id).store.blogs == s.blogs[id := BlogFrom(draft, caller)]
    ensures Create(s, caller, draft, id).store.users == s.users
    ensures !OwnersListTheirBlogs(Create(s, caller, draft, id).store)
  {
    var r := Create(s, caller, draft, id);
    assert r.store.blogs[id].owner == Some(caller);
  }

  /** Deleting and updating keep every owned blog listed. */
  lemma DeleteAndUpdateKeepOwnersListing(s: Store, caller: UserId, id: BlogId, likes: int)
    requires OwnersListTheirBlogs(s)
    ensures OwnersListTheirBlogs(Delete(s, caller, id).store)
    ensures OwnersListTheirBlogs(Update(s, id, likes).store)
  {
  }

  /** The owner's successful delete leaves the id in the owner's list, where
      it no longer names a stored blog. */
  lemma DeleteLeavesIdInOwnersList(s: Store, caller: UserId, id: BlogId)
    requires OwnersListTheirBlogs(s)
    requires id in s.blogs && s.blogs[id].owner == Some(caller)
    ensures var r := Delete(s, caller, id);
      && caller in r.store.users
      && id in r.store.users[caller].blogs
      && id !in r.store.blogs
  {
  }
}
