/**
 * GET and POST /api/posts (app/api/posts/route.ts). The query string arrives as
 * the two optional parameters `searchParams.get` returns; the body as parsed.
 */
module PostsRoute {
  import opened Options
  import opened Seqs
  import opened Text
  import opened Types
  import opened Validation
  import opened MockData

  const ListedMessage := "Posts recuperados com sucesso"
  const CreatedMessage := "Post criado com sucesso"
  const NoAuthorMessage := "Autor não encontrado"

  /** The author filter GET applies: only for a non-empty parameter that parseInt reads as a number. */
  function AuthorQuery(authorId: Option<string>): (r: Option<int>)
    ensures authorId.None? || authorId.value == [] ==> r.None?
    ensures authorId.Some? && authorId.value != [] ==> r == ParseInt(authorId.value)
  {
    match authorId
    case Some(a) => if a != [] then ParseInt(a) else None
    case None => None
  }

  /** The published filter GET applies: any present parameter, true exactly for "true". */
  function PublishedQuery(published: Option<string>): (r: Option<bool>)
    ensures r.Some? <==> published.Some?
    ensures r.Some? ==> (r.value <==> published.value == "true")
  {
    match published
    case Some(p) => Some(p == "true")
    case None => None
  }

  function ViewByAuthor(authorId: int): PostView -> bool
  {
    (v: PostView) => v.post.authorId == authorId
  }

  function ViewPublished(published: bool): PostView -> bool
  {
    (v: PostView) => v.post.published == published
  }

  /** Both filters at once: the posts GET returns for the given query. */
  function Selected(author: Option<int>, published: Option<bool>): PostView -> bool
  {
    (v: PostView) =>
      && (author.None? || v.post.authorId == author.value)
      && (published.None? || v.post.published == published.value)
  }

  /**
   * GET /api/posts: every post with its author, narrowed by the author filter
   * and then the published filter when the query asks for them, in store order.
   */
  method HandleGet(posts: seq<Post>, users: seq<User>, authorId: Option<string>, published: Option<string>)
    returns (r: Reply<seq<PostView>>)
    ensures r.Ok? && r.status == 200 && r.message == ListedMessage
    ensures r.data == Filter(FindAllPosts(posts, users), Selected(AuthorQuery(authorId), PublishedQuery(published)))
    ensures forall i :: 0 <= i < |r.data| ==>
      && r.data[i] in FindAllPosts(posts, users)
      && (AuthorQuery(authorId).Some? ==> r.data[i].post.authorId == AuthorQuery(authorId).value)
      && (PublishedQuery(published).Some? ==> r.data[i].post.published == PublishedQuery(published).value)
    ensures forall k ::
              && 0 <= k < |posts|
              && (AuthorQuery(authorId).Some? ==> posts[k].authorId == AuthorQuery(authorId).value)
              && (PublishedQuery(published).Some? ==> posts[k].published == PublishedQuery(published).value)
              ==> WithAuthor(posts[k], users) in r.data
    ensures Subseq(r.data, FindAllPosts(posts, users))
  {
    var all := FindAllPosts(posts, users);
    var author, status := AuthorQuery(authorId), PublishedQuery(published);
    var selected := Selected(author, status);
    var views := all;
    if author.Some? {
      views := Filter(views, ViewByAuthor(author.value));
    }
    if status.Some? {
      views := Filter(views, ViewPublished(status.value));
    }
    if author.Some? && status.Some? {
      FilterFilter(all, ViewByAuthor(author.value), ViewPublished(status.value), selected);
    } else if author.Some? {
      FilterAgree(all, ViewByAuthor(author.value), selected);
    } else if status.Some? {
      FilterAgree(all, ViewPublished(status.value), selected);
    } else {
      FilterKeepsAll(all, selected);
    }
    forall k | 0 <= k < |posts| && selected(WithAuthor(posts[k], users))
      ensures WithAuthor(posts[k], users) in views
    {
      assert all[k] == WithAuthor(posts[k], users);
    }
    r := Ok(200, views, ListedMessage);
  }

  /** Filtering the joined posts by author gives what the store's findByAuthorId gives. */
  lemma {:induction false} FilterViewsByAuthor(posts: seq<Post>, users: seq<User>, authorId: int)
    ensures Filter(FindAllPosts(posts, users), ViewByAuthor(authorId))
         == FindAllPosts(Filter(posts, ByAuthor(authorId)), users)
  {
    if posts != [] {
      FilterViewsByAuthor(posts[1..], users, authorId);
      assert FindAllPosts(posts, users)[1..] == FindAllPosts(posts[1..], users);
    }
  }

  /** `GET /api/posts?authorId=<n>` lists exactly findByAuthorId(n). */
  lemma GetByAuthorIsFindByAuthor(posts: seq<Post>, users: seq<User>, authorId: int)
    ensures Filter(FindAllPosts(posts, users), Selected(AuthorQuery(Some(IntToString(authorId))), PublishedQuery(None)))
         == FindPostsByAuthor(posts, users, authorId)
  {
    ParseIntOfRendered(authorId, []);
    assert IntToString(authorId) + [] == IntToString(authorId);
    assert IntToString(authorId) != [];
    var all := FindAllPosts(posts, users);
    FilterAgree(all, ViewByAuthor(authorId), Selected(Some(authorId), None));
    FilterViewsByAuthor(posts, users, authorId);
  }

  /** `body.published || false`. */
  function PublishedOrFalse(published: Option<bool>): (r: bool)
    ensures r <==> published == Some(true)
  {
    match published
    case Some(b) => b
    case None => false
  }

  /** The 201 path of POST /api/posts: the trimmed post is created and returned with its author. */
  method Publish(store: Store, title: string, content: string, authorId: int, published: Option<bool>, now: nat)
    returns (r: Reply<PostView>)
    requires store.Valid()
    requires Trim(title) != [] && Trim(content) != [] && HasUser(store.users, authorId)
    modifies store
    ensures store.Valid()
    ensures store.users == old(store.users) && store.nextUserId == old(store.nextUserId)
    ensures store.issuedUserIds == old(store.issuedUserIds)
    ensures store.nextPostId == old(store.nextPostId) + 1
    ensures store.issuedPostIds == old(store.issuedPostIds) + {old(store.nextPostId)}
    ensures store.posts == old(store.posts) + [Post(old(store.nextPostId), Trim(title), Trim(content),
      PublishedOrFalse(published), authorId, now, now)]
    ensures r == Ok(201, WithAuthor(Post(old(store.nextPostId), Trim(title), Trim(content),
      PublishedOrFalse(published), authorId, now, now), store.users), CreatedMessage)
    ensures r.data.author.Some? && r.data.author.value.id == authorId
    ensures AuthorsExist(old(store.users), old(store.posts)) ==> AuthorsExist(store.users, store.posts)
  {
    var data := NewPost(Trim(title), Trim(content), authorId, PublishedOrFalse(published));
    ghost var before := store.posts;
    var view := store.CreatePost(data, now);
    if AuthorsExist(store.users, before) {
      AppendKeepsAuthors(store.users, before, view.post);
    }
    r := Ok(201, view, CreatedMessage);
  }

  /**
   * POST /api/posts: 400 with the joined validation messages, 404 when no
   * user has the author id, otherwise 201 with the new post and its author.
   */
  method HandlePost(store: Store, body: PostBody, now: nat) returns (r: Reply<PostView>)
    requires store.Valid()
    modifies store
    ensures store.Valid()
    ensures store.users == old(store.users) && store.nextUserId == old(store.nextUserId)
    ensures store.issuedUserIds == old(store.issuedUserIds)
    ensures r.Err? ==> store.nextPostId == old(store.nextPostId) && store.issuedPostIds == old(store.issuedPostIds)
    ensures r.Ok? ==> store.nextPostId == old(store.nextPostId) + 1 && store.issuedPostIds == old(store.issuedPostIds) + {r.data.post.id}
    ensures PostErrors(body) != [] ==>
      r == Err(400, Join(PostErrors(body), ", ")) && store.posts == old(store.posts)
    ensures PostErrors(body) == [] && !HasUser(old(store.users), body.authorId.n) ==>
      r == Err(404, NoAuthorMessage) && store.posts == old(store.posts)
    ensures PostErrors(body) == [] && HasUser(old(store.users), body.authorId.n) ==>
      && store.posts == old(store.posts) + [Post(old(store.nextPostId), Trim(body.title.s), Trim(body.content.s),
           PublishedOrFalse(body.published), body.authorId.n, now, now)]
      && r == Ok(201, WithAuthor(store.posts[|store.posts| - 1], store.users), CreatedMessage)
    ensures r.Ok? ==> r.data.author.Some? && r.data.author.value.id == r.data.post.authorId
    ensures AuthorsExist(old(store.users), old(store.posts)) ==> AuthorsExist(store.users, store.posts)
  {
    var errors := ValidatePost(body);
    if |errors| > 0 {
      return Err(400, Join(errors, ", "));
    }
    var author := FindUserById(store.users, body.authorId.n);
    if author.None? {
      return Err(404, NoAuthorMessage);
    }
    TextOkMeaning(body.title);
    TextOkMeaning(body.content);
    r := Publish(store, body.title.s, body.content.s, body.authorId.n, body.published, now);
  }
}
