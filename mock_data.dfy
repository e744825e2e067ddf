/**
 * The in-memory entity store of lib/mock-data.ts: the users and posts arrays,
 * their id counters, the read operations (pure queries over the arrays) and
 * the create, update and delete operations (which change the arrays in place).
 */
module MockData {
  import opened Options
  import opened Seqs
  import opened Types

  /** 2024-01-01 and 2024-01-02 at midnight UTC, in milliseconds. */
  const Day1: nat := 1704067200000
  const Day2: nat := 1704153600000

  function SeedUsers(): seq<User>
  {
    [ User(1, "João Silva", "joao@exemplo.com", Some("hashedpassword123"), Day1, Day1),
      User(2, "Maria Santos", "maria@exemplo.com", Some("hashedpassword456"), Day2, Day2) ]
  }

  function SeedPosts(): seq<Post>
  {
    [ Post(1, "Primeiro Post", "Este é o conteúdo do primeiro post.", true, 1, Day1, Day1),
      Post(2, "Segundo Post", "Conteúdo do segundo post com mais detalhes.", false, 2, Day2, Day2) ]
  }

  // ---------------------------------------------------------------------------
  // Relations between the two arrays

  predicate HasUser(users: seq<User>, id: int)
  {
    exists k :: 0 <= k < |users| && users[k].id == id
  }

  /** Every post's author is a live user. */
  ghost predicate AuthorsExist(users: seq<User>, posts: seq<Post>)
  {
    forall p :: p in posts ==> HasUser(users, p.authorId)
  }

  /** No two users share an e-mail address. */
  ghost predicate EmailsUnique(users: seq<User>)
  {
    forall i, j :: 0 <= i < j < |users| ==> users[i].email != users[j].email
  }

  ghost predicate UsersOrdered(users: seq<User>)
  {
    forall i, j :: 0 <= i < j < |users| ==> users[i].id < users[j].id
  }

  ghost predicate PostsOrdered(posts: seq<Post>)
  {
    forall i, j :: 0 <= i < j < |posts| ==> posts[i].id < posts[j].id
  }

  // ---------------------------------------------------------------------------
  // Reads

  /** The record as handed out: the same user with no password. */
  function Strip(u: User): (r: User)
    ensures r.id == u.id && r.name == u.name && r.email == u.email
    ensures r.createdAt == u.createdAt && r.updatedAt == u.updatedAt
    ensures r.password.None?
  {
    u.(password := None)
  }

  function HasId(id: int): User -> bool
  {
    (u: User) => u.id == id
  }

  function HasEmail(email: string): User -> bool
  {
    (u: User) => u.email == email
  }

  function PostHasId(id: int): Post -> bool
  {
    (p: Post) => p.id == id
  }

  /** users.findIndex(u => u.id === id), None for -1. */
  function UserIndex(users: seq<User>, id: int): (r: Option<nat>)
    ensures r.Some? ==> r.value < |users| && users[r.value].id == id
    ensures r.Some? ==> forall k :: 0 <= k < r.value ==> users[k].id != id
    ensures r.None? <==> !HasUser(users, id)
  {
    var r := IndexOf(users, HasId(id));
    assert r.Some? ==> HasId(id)(users[r.value]);
    assert r.None? ==> forall k :: 0 <= k < |users| ==> !HasId(id)(users[k]);
    r
  }

  /** users.findIndex(u => u.email === email), None for -1. */
  function EmailIndex(users: seq<User>, email: string): (r: Option<nat>)
    ensures r.Some? ==> r.value < |users| && users[r.value].email == email
    ensures r.Some? ==> forall k :: 0 <= k < r.value ==> users[k].email != email
    ensures r.None? ==> forall k :: 0 <= k < |users| ==> users[k].email != email
  {
    IndexOf(users, HasEmail(email))
  }

  /** posts.findIndex(p => p.id === id), None for -1. */
  function PostIndex(posts: seq<Post>, id: int): (r: Option<nat>)
    ensures r.Some? ==> r.value < |posts| && posts[r.value].id == id
    ensures r.Some? ==> forall k :: 0 <= k < r.value ==> posts[k].id != id
    ensures r.None? ==> forall k :: 0 <= k < |posts| ==> posts[k].id != id
  {
    IndexOf(posts, PostHasId(id))
  }

  /** users.find(u => u.id === id): the stored record itself, password included. */
  function FindUser(users: seq<User>, id: int): (r: Option<User>)
    ensures r.Some? <==> HasUser(users, id)
    ensures r.Some? ==> r.value in users && r.value.id == id
    ensures r.Some? ==> exists k ::
      0 <= k < |users| && users[k] == r.value && forall j :: 0 <= j < k ==> users[j].id != id
  {
    match UserIndex(users, id)
    case None => None
    case Some(i) => Some(users[i])
  }

  /** mockUserOperations.findAll: every user, in order, without its password. */
  function FindAllUsers(users: seq<User>): (r: seq<User>)
    ensures |r| == |users|
    ensures forall i :: 0 <= i < |users| ==> r[i] == Strip(users[i])
    ensures forall i :: 0 <= i < |r| ==> r[i].password.None?
  {
    if users == [] then [] else [Strip(users[0])] + FindAllUsers(users[1..])
  }

  /** mockUserOperations.findById: the user with that id, without its password. */
  function FindUserById(users: seq<User>, id: int): (r: Option<User>)
    ensures r.Some? <==> HasUser(users, id)
    ensures r.Some? ==> r.value.id == id && r.value.password.None?
    ensures r.Some? ==> Strip(FindUser(users, id).value) == r.value
  {
    match FindUser(users, id)
    case None => None
    case Some(u) => Some(Strip(u))
  }

  /** mockUserOperations.findByEmail: the first user whose e-mail is exactly that string, password included. */
  function FindUserByEmail(users: seq<User>, email: string): (r: Option<User>)
    ensures r.Some? <==> exists k :: 0 <= k < |users| && users[k].email == email
    ensures r.Some? ==> r.value in users && r.value.email == email
    ensures r.Some? ==> exists k ::
      0 <= k < |users| && users[k] == r.value && forall j :: 0 <= j < k ==> users[j].email != email
  {
    match EmailIndex(users, email)
    case None => None
    case Some(i) => Some(users[i])
  }

  /** The author join of every post read: the stored author record (password included), if any. */
  function WithAuthor(p: Post, users: seq<User>): (r: PostView)
    ensures r.post == p
    ensures r.author.Some? <==> HasUser(users, p.authorId)
    ensures r.author.Some? ==> r.author.value in users && r.author.value.id == p.authorId
  {
    PostView(p, FindUser(users, p.authorId))
  }

  /** mockPostOperations.findAll: every post, in order, with its author joined. */
  function FindAllPosts(posts: seq<Post>, users: seq<User>): (r: seq<PostView>)
    ensures |r| == |posts|
    ensures forall i :: 0 <= i < |posts| ==> r[i] == WithAuthor(posts[i], users)
  {
    if posts == [] then [] else [WithAuthor(posts[0], users)] + FindAllPosts(posts[1..], users)
  }

  /** mockPostOperations.findById. */
  function FindPostById(posts: seq<Post>, users: seq<User>, id: int): (r: Option<PostView>)
    ensures r.Some? <==> exists k :: 0 <= k < |posts| && posts[k].id == id
    ensures r.Some? ==> r.value.post in posts && r.value.post.id == id
    ensures r.Some? ==> r.value.author == FindUser(users, r.value.post.authorId)
  {
    match PostIndex(posts, id)
    case None => None
    case Some(i) => Some(WithAuthor(posts[i], users))
  }

  function ByAuthor(authorId: int): Post -> bool
  {
    (p: Post) => p.authorId == authorId
  }

  function NotByAuthor(authorId: int): Post -> bool
  {
    (p: Post) => p.authorId != authorId
  }

  /** mockPostOperations.findByAuthorId: that author's posts, in order, each with its author joined. */
  function FindPostsByAuthor(posts: seq<Post>, users: seq<User>, authorId: int): (r: seq<PostView>)
    ensures forall i :: 0 <= i < |r| ==> r[i].post in posts && r[i].post.authorId == authorId
    ensures forall i :: 0 <= i < |r| ==> r[i].author == FindUser(users, authorId)
    ensures forall k :: 0 <= k < |posts| && posts[k].authorId == authorId ==> WithAuthor(posts[k], users) in r
  {
    var mine := Filter(posts, ByAuthor(authorId));
    var r := FindAllPosts(mine, users);
    assert forall k :: 0 <= k < |posts| && posts[k].authorId == authorId ==> posts[k] in mine by {
      forall k | 0 <= k < |posts| && posts[k].authorId == authorId
        ensures posts[k] in mine
      {
        assert ByAuthor(authorId)(posts[k]);
      }
    }
    assert forall p :: p in mine ==> WithAuthor(p, users) in r by {
      forall p | p in mine
        ensures WithAuthor(p, users) in r
      {
        var k :| 0 <= k < |mine| && mine[k] == p;
        assert r[k] == WithAuthor(p, users);
      }
    }
    r
  }

  /** Merging a patch over a user: supplied fields win, the id and creation time stay, updatedAt is the clock. */
  function MergeUser(u: User, patch: UserPatch, now: nat): (r: User)
    ensures r.id == u.id && r.createdAt == u.createdAt && r.updatedAt == now
    ensures r.name == (if patch.name.Some? then patch.name.value else u.name)
    ensures r.email == (if patch.email.Some? then patch.email.value else u.email)
    ensures r.password == (if patch.password.Some? then patch.password else u.password)
  {
    User(u.id,
      match patch.name case Some(n) => n case None => u.name,
      match patch.email case Some(e) => e case None => u.email,
      match patch.password case Some(_) => patch.password case None => u.password,
      u.createdAt, now)
  }

  /** Merging a patch over a post: supplied fields win, the id and creation time stay, updatedAt is the clock. */
  function MergePost(p: Post, patch: PostPatch, now: nat): (r: Post)
    ensures r.id == p.id && r.createdAt == p.createdAt && r.updatedAt == now
    ensures r.title == (if patch.title.Some? then patch.title.value else p.title)
    ensures r.content == (if patch.content.Some? then patch.content.value else p.content)
    ensures r.authorId == (if patch.authorId.Some? then patch.authorId.value else p.authorId)
    ensures r.published == (if patch.published.Some? then patch.published.value else p.published)
  {
    Post(p.id,
      match patch.title case Some(t) => t case None => p.title,
      match patch.content case Some(c) => c case None => p.content,
      match patch.published case Some(b) => b case None => p.published,
      match patch.authorId case Some(a) => a case None => p.authorId,
      p.createdAt, now)
  }

  // ---------------------------------------------------------------------------
  // The store

  class Store {
    var users: seq<User>
    var posts: seq<Post>
    var nextUserId: int
    var nextPostId: int
    /** Every id a create has handed out, including those of records since deleted. */
    ghost var issuedUserIds: set<int>
    ghost var issuedPostIds: set<int>

    /**
     * Ids increase along each array, every live id was issued, and every
     * issued id lies below the counter, so the counter never repeats one.
     */
    ghost predicate Valid()
      reads this
    {
      && UsersOrdered(users)
      && PostsOrdered(posts)
      && (forall k :: 0 <= k < |users| ==> users[k].id in issuedUserIds)
      && (forall k :: 0 <= k < |posts| ==> posts[k].id in issuedPostIds)
      && (forall id :: id in issuedUserIds ==> id < nextUserId)
      && (forall id :: id in issuedPostIds ==> id < nextPostId)
    }

    /** The module's initial state: two users, one post each, both counters at 3. */
    constructor ()
      ensures Valid()
      ensures users == SeedUsers() && posts == SeedPosts()
      ensures nextUserId == 3 && nextPostId == 3
      ensures EmailsUnique(users) && AuthorsExist(users, posts)
    {
      users := SeedUsers();
      posts := SeedPosts();
      nextUserId := 3;
      nextPostId := 3;
      issuedUserIds := {1, 2};
      issuedPostIds := {1, 2};
      new;
      assert users[0].email[0] != users[1].email[0];
      assert HasUser(users, 1) by { assert users[0].id == 1; }
      assert HasUser(users, 2) by { assert users[1].id == 2; }
    }

    /** mockUserOperations.create: appends the user under the next id and returns it without its password. */
    method CreateUser(data: NewUser, now: nat) returns (r: User)
      requires Valid()
      modifies this
      ensures Valid()
      ensures users == old(users) + [User(old(nextUserId), data.name, data.email, data.password, now, now)]
      ensures r == Strip(users[|users| - 1])
      ensures nextUserId == old(nextUserId) + 1
      ensures r.id !in old(issuedUserIds)
      ensures forall k :: 0 <= k < |old(users)| ==> old(users)[k].id < r.id
      ensures issuedUserIds == old(issuedUserIds) + {r.id}
      ensures posts == old(posts) && nextPostId == old(nextPostId) && issuedPostIds == old(issuedPostIds)
    {
      var user := User(nextUserId, data.name, data.email, data.password, now, now);
      nextUserId := nextUserId + 1;
      users := users + [user];
      issuedUserIds := issuedUserIds + {user.id};
      r := Strip(user);
    }

    /**
     * mockUserOperations.update: None when no user has the id; otherwise the
     * patch is merged over the record in place and the result returned without its password.
     */
    method UpdateUser(id: int, patch: UserPatch, now: nat) returns (r: Option<User>)
      requires Valid()
      modifies this
      ensures Valid()
      ensures !HasUser(old(users), id) ==> r.None? && users == old(users)
      ensures HasUser(old(users), id) ==>
        var i := UserIndex(old(users), id).value;
        && users == old(users)[i := MergeUser(old(users)[i], patch, now)]
        && r == Some(Strip(users[i]))
      ensures posts == old(posts)
      ensures nextUserId == old(nextUserId) && nextPostId == old(nextPostId)
      ensures issuedUserIds == old(issuedUserIds) && issuedPostIds == old(issuedPostIds)
    {
      var index := UserIndex(users, id);
      if index.None? {
        return None;
      }
      var i := index.value;
      users := users[i := MergeUser(users[i], patch, now)];
      r := Some(Strip(users[i]));
    }

    /**
     * mockUserOperations.delete: false when no user has the id; otherwise the
     * user is spliced out and every post of that author is dropped.
     */
    method DeleteUser(id: int) returns (deleted: bool)
      requires Valid()
      modifies this
      ensures Valid()
      ensures deleted <==> HasUser(old(users), id)
      ensures !deleted ==> users == old(users) && posts == old(posts)
      ensures deleted ==> users == RemoveAt(old(users), UserIndex(old(users), id).value)
      ensures deleted ==> posts == Filter(old(posts), NotByAuthor(id))
      ensures forall u :: u in users <==> u in old(users) && u.id != id
      ensures !HasUser(users, id)
      ensures forall p :: p in posts <==> p in old(posts) && (deleted ==> p.authorId != id)
      ensures AuthorsExist(old(users), old(posts)) ==> AuthorsExist(users, posts)
      ensures nextUserId == old(nextUserId) && nextPostId == old(nextPostId)
      ensures issuedUserIds == old(issuedUserIds) && issuedPostIds == old(issuedPostIds)
    {
      var index := UserIndex(users, id);
      if index.None? {
        return false;
      }
      var i := index.value;
      DeleteUserSound(users, posts, i, issuedUserIds, issuedPostIds);
      users := RemoveAt(users, i);
      posts := Filter(posts, NotByAuthor(id));
      deleted := true;
    }

    /** mockPostOperations.create: appends the post under the next id; the author is joined, not checked. */
    method CreatePost(data: NewPost, now: nat) returns (r: PostView)
      requires Valid()
      modifies this
      ensures Valid()
      ensures posts == old(posts)
        + [Post(old(nextPostId), data.title, data.content, data.published, data.authorId, now, now)]
      ensures r == WithAuthor(posts[|posts| - 1], users)
      ensures nextPostId == old(nextPostId) + 1
      ensures r.post.id !in old(issuedPostIds)
      ensures forall k :: 0 <= k < |old(posts)| ==> old(posts)[k].id < r.post.id
      ensures issuedPostIds == old(issuedPostIds) + {r.post.id}
      ensures users == old(users) && nextUserId == old(nextUserId) && issuedUserIds == old(issuedUserIds)
    {
      var post := Post(nextPostId, data.title, data.content, data.published, data.authorId, now, now);
      nextPostId := nextPostId + 1;
      posts := posts + [post];
      issuedPostIds := issuedPostIds + {post.id};
      r := WithAuthor(post, users);
    }

    /**
     * mockPostOperations.update: None when no post has the id; otherwise the
     * patch is merged over the record in place and the author joined again
     * from the possibly new authorId.
     */
    method UpdatePost(id: int, patch: PostPatch, now: nat) returns (r: Option<PostView>)
      requires Valid()
      modifies this
      ensures Valid()
      ensures PostIndex(old(posts), id).None? ==> r.None? && posts == old(posts)
      ensures PostIndex(old(posts), id).Some? ==>
        var i := PostIndex(old(posts), id).value;
        && posts == old(posts)[i := MergePost(old(posts)[i], patch, now)]
        && r == Some(WithAuthor(posts[i], users))
      ensures users == old(users)
      ensures nextUserId == old(nextUserId) && nextPostId == old(nextPostId)
      ensures issuedUserIds == old(issuedUserIds) && issuedPostIds == old(issuedPostIds)
    {
      var index := PostIndex(posts, id);
      if index.None? {
        return None;
      }
      var i := index.value;
      posts := posts[i := MergePost(posts[i], patch, now)];
      r := Some(WithAuthor(posts[i], users));
    }

    /** mockPostOperations.delete: false when no post has the id; otherwise that post is spliced out. */
    method DeletePost(id: int) returns (deleted: bool)
      requires Valid()
      modifies this
      ensures Valid()
      ensures deleted <==> PostIndex(old(posts), id).Some?
      ensures !deleted ==> posts == old(posts)
      ensures deleted ==> posts == RemoveAt(old(posts), PostIndex(old(posts), id).value)
      ensures forall p :: p in posts <==> p in old(posts) && p.id != id
      ensures FindPostById(posts, users, id).None?
      ensures AuthorsExist(users, old(posts)) ==> AuthorsExist(users, posts)
      ensures users == old(users)
      ensures nextUserId == old(nextUserId) && nextPostId == old(nextPostId)
      ensures issuedUserIds == old(issuedUserIds) && issuedPostIds == old(issuedPostIds)
    {
      var index := PostIndex(posts, id);
      if index.None? {
        return false;
      }
      var i := index.value;
      ghost var oldPosts := posts;
      posts := RemoveAt(posts, i);
      deleted := true;
      RemovePostOnlyMatch(oldPosts, i);
    }
  }

  /** In an array with increasing ids, splicing out index i removes exactly the records with that id. */
  lemma RemoveOnlyMatch(users: seq<User>, i: nat)
    requires UsersOrdered(users) && i < |users|
    ensures UsersOrdered(RemoveAt(users, i))
    ensures forall u :: u in RemoveAt(users, i) <==> u in users && u.id != users[i].id
  {
    var before := (a: User, b: User) => a.id < b.id;
    assert forall a, b :: 0 <= a < b < |users| ==> before(users[a], users[b]);
    RemoveAtKeepsOrder(users, i, before);
    var r := RemoveAt(users, i);
    forall u | u in users && u.id != users[i].id
      ensures u in r
    {
      var k :| 0 <= k < |users| && users[k] == u;
      if k < i {
        assert r[k] == u;
      } else {
        assert r[k - 1] == u;
      }
    }
  }

  lemma RemovePostOnlyMatch(posts: seq<Post>, i: nat)
    requires PostsOrdered(posts) && i < |posts|
    ensures PostsOrdered(RemoveAt(posts, i))
    ensures forall p :: p in RemoveAt(posts, i) <==> p in posts && p.id != posts[i].id
  {
    var before := (a: Post, b: Post) => a.id < b.id;
    assert forall a, b :: 0 <= a < b < |posts| ==> before(posts[a], posts[b]);
    RemoveAtKeepsOrder(posts, i, before);
    var r := RemoveAt(posts, i);
    forall p | p in posts && p.id != posts[i].id
      ensures p in r
    {
      var k :| 0 <= k < |posts| && posts[k] == p;
      if k < i {
        assert r[k] == p;
      } else {
        assert r[k - 1] == p;
      }
    }
  }

  /** The cascade of a user deletion keeps the posts in id order. */
  lemma CascadeKeepsOrder(posts: seq<Post>, id: int)
    requires PostsOrdered(posts)
    ensures PostsOrdered(Filter(posts, NotByAuthor(id)))
  {
    var before := (a: Post, b: Post) => a.id < b.id;
    assert forall i, j :: 0 <= i < j < |posts| ==> before(posts[i], posts[j]);
    FilterKeepsOrder(posts, NotByAuthor(id), before);
  }

  /** The cascade of a user deletion keeps exactly the posts of other authors. */
  lemma CascadeOnlyMatch(posts: seq<Post>, id: int)
    ensures forall p :: p in Filter(posts, NotByAuthor(id)) <==> p in posts && p.authorId != id
  {
    var r := Filter(posts, NotByAuthor(id));
    forall p | p in r
      ensures p in posts && p.authorId != id
    {
      var k :| 0 <= k < |r| && r[k] == p;
      assert NotByAuthor(id)(r[k]);
    }
    forall p | p in posts && p.authorId != id
      ensures p in r
    {
      var k :| 0 <= k < |posts| && posts[k] == p;
      assert NotByAuthor(id)(posts[k]);
    }
  }

  /** Deleting a user together with their posts leaves no post without a live author. */
  lemma DeleteKeepsAuthors(users: seq<User>, posts: seq<Post>, i: nat)
    requires UsersOrdered(users) && i < |users|
    requires AuthorsExist(users, posts)
    ensures AuthorsExist(RemoveAt(users, i), Filter(posts, NotByAuthor(users[i].id)))
  {
    var id := users[i].id;
    var us := RemoveAt(users, i);
    var ps := Filter(posts, NotByAuthor(id));
    RemoveOnlyMatch(users, i);
    CascadeOnlyMatch(posts, id);
    forall p | p in ps
      ensures HasUser(us, p.authorId)
    {
      var k :| 0 <= k < |users| && users[k].id == p.authorId;
      assert users[k] in us;
      var j :| 0 <= j < |us| && us[j] == users[k];
    }
  }

  /**
   * What DeleteUser leaves: the user spliced out and its posts dropped keep
   * both arrays ordered, every live id issued, and every post's author live.
   */
  lemma DeleteUserSound(users: seq<User>, posts: seq<Post>, i: nat, issuedUsers: set<int>, issuedPosts: set<int>)
    requires UsersOrdered(users) && PostsOrdered(posts) && i < |users|
    requires forall k :: 0 <= k < |users| ==> users[k].id in issuedUsers
    requires forall k :: 0 <= k < |posts| ==> posts[k].id in issuedPosts
    ensures var us := RemoveAt(users, i);
      && UsersOrdered(us)
      && (forall k :: 0 <= k < |us| ==> us[k].id in issuedUsers)
      && (forall u :: u in us <==> u in users && u.id != users[i].id)
      && !HasUser(us, users[i].id)
    ensures var ps := Filter(posts, NotByAuthor(users[i].id));
      && PostsOrdered(ps)
      && (forall k :: 0 <= k < |ps| ==> ps[k].id in issuedPosts)
      && (forall p :: p in ps <==> p in posts && p.authorId != users[i].id)
    ensures AuthorsExist(users, posts) ==>
      AuthorsExist(RemoveAt(users, i), Filter(posts, NotByAuthor(users[i].id)))
  {
    var id := users[i].id;
    RemoveOnlyMatch(users, i);
    CascadeKeepsOrder(posts, id);
    CascadeOnlyMatch(posts, id);
    if AuthorsExist(users, posts) {
      DeleteKeepsAuthors(users, posts, i);
    }
    var us := RemoveAt(users, i);
    var ps := Filter(posts, NotByAuthor(id));
    forall k | 0 <= k < |us|
      ensures us[k].id in issuedUsers
    {
      assert us[k] in users;
    }
    forall k | 0 <= k < |ps|
      ensures ps[k].id in issuedPosts
    {
      assert ps[k] in posts;
    }
  }

  /** Appending a post whose author is live keeps every post's author live. */
  lemma AppendKeepsAuthors(users: seq<User>, posts: seq<Post>, p: Post)
    requires AuthorsExist(users, posts) && HasUser(users, p.authorId)
    ensures AuthorsExist(users, posts + [p])
  {
    forall q | q in posts + [p]
      ensures HasUser(users, q.authorId)
    {
      if q != p {
        assert q in posts;
      }
    }
  }

  /** A user appended under an id above every stored one is what findById then returns. */
  lemma FindCreatedUser(users: seq<User>, u: User)
    requires forall k :: 0 <= k < |users| ==> users[k].id < u.id
    ensures FindUserById(users + [u], u.id) == Some(Strip(u))
  {
    var us := users + [u];
    assert us[|users|].id == u.id;
  }

  /** A post appended under an id above every stored one is what findById then returns, with its author. */
  lemma FindCreatedPost(posts: seq<Post>, users: seq<User>, p: Post)
    requires forall k :: 0 <= k < |posts| ==> posts[k].id < p.id
    ensures FindPostById(posts + [p], users, p.id) == Some(WithAuthor(p, users))
  {
    var ps := posts + [p];
    assert ps[|posts|].id == p.id;
  }
}
