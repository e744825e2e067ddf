# web2api store and request rules, in Dafny

A model of the data core of a small Next.js demonstration API. The model covers:

- an in-memory store of users and posts (`lib/mock-data.ts`);
- the input validators (`lib/validation.ts`);
- the handlers that list and create users and posts, and the login stub
  (`app/api/users/route.ts`, `app/api/posts/route.ts`,
  `app/api/auth/login/route.ts`).

## Modules

- `MockData` models the store. `Store` is a class holding the two arrays, as `seq` fields, and their two id
  counters. Ghost sets record every id a create has handed out, including the ids of records since deleted. Every
  method of the class states what those sets become, and `Store.Valid()` keeps:
  - ids increasing along each array;
  - every live id issued;
  - every issued id below its counter.

  Create, update and delete are methods of the class. The finds are pure functions over the arrays, and the three
  index lookups share one `findIndex`. Deleting a user cascades to that user's posts.
- `Validation` models the validators. `validateEmail` is a character scan, proved equal to the shape its regular
  expression describes. `validateUser` and `validatePost` are methods that build the message list one check at a
  time. Each is specified by a function whose contract states, per message, exactly when it appears.
- `UsersRoute`, `PostsRoute` and `LoginRoute` model the handlers:
  - Each handler takes the parsed body, or the query parameters, as values.
  - The reply is a `Reply` datatype: a status with data and a message, or a status with an error.
  - POST handlers change the `Store`.
  - The two GET handlers and login only read.
  - Every clock reading is a natural-number parameter, in milliseconds.
- `Text` models the JavaScript string built-ins the code calls:
  - `trim`, with the full JavaScript white-space set;
  - `toLowerCase`;
  - `parseInt`;
  - rendering an integer in a template literal;
  - `join`.

  `Seqs` models `findIndex`, `filter`, `splice`, and subsequence order.

Where the code and its documentation disagree, the model follows the code. Posts are joined with their author by
looking the user up in the array (`lib/mock-data.ts:108`, `:117`, `:128`, `:142`, `:158`). That is the stored record,
password included, although the documentation page shows the joined author with only an id, a name and an e-mail
(`app/docs/page.tsx:166-170`). `MockData.WithAuthor` follows the code.

## Model

| member | source | states |
|---|---|---|
| Seqs.IndexOf | lib/mock-data.ts:79-80 | the first index whose element passes the test, None exactly when no element passes |
| Seqs.Filter | lib/mock-data.ts:98 | every kept element passes the test and comes from the input, every input element that passes is kept, and the result is a subsequence of the input, so the original relative order is kept |
| Seqs.FilterCounts | lib/mock-data.ts:98 | each element that passes the test is kept as many times as it occurs in the input; an element that fails is not kept |
| Seqs.RemoveAt | lib/mock-data.ts:96 | splicing one element out shifts every later element down by one and keeps every earlier one |
| Seqs.FilterFilter | app/api/posts/route.ts:23-34 | two successive filters keep what the conjunction of their tests keeps |
| Seqs.FilterKeepsOrder | lib/mock-data.ts:98 | any order relation between elements survives a filter |
| Text.Trim | lib/validation.ts:10 | the result is the infix of the input left once the white space at both ends is dropped: everything before and after it is white space, and it neither starts nor ends with white space |
| Text.ToLower | app/api/users/route.ts:70 | same length; every character is mapped by the ASCII lower-case mapping |
| Text.Join | app/api/users/route.ts:49 | "" for no parts, the part itself for one, and otherwise the summed part lengths plus one separator per gap, starting with the first part and ending with the last |
| Text.JoinSnoc | app/api/users/route.ts:49 | joining one more part appends the separator and then that part, so exactly one separator sits between each pair of neighbours |
| Text.ParseInt | app/api/posts/route.ts:24 | NaN exactly when, after leading white space and one sign, no decimal digit follows, or "0x" is followed by no hexadecimal digit; a negative result only after a minus sign |
| Text.ParseIntOfRendered | app/api/posts/route.ts:24 | parseInt reads back any integer rendered in decimal when the next character is neither a digit nor 'x' or 'X' |
| Validation.ValidateEmail | lib/validation.ts:2-5 | true exactly for a string of the shape the regular expression describes (stated below) |
| Validation.ScanMeansShape | lib/validation.ts:2-5 | an e-mail is accepted iff it is a run, '@', a run, '.', a run, with each run non-empty and free of white space and '@' (the last '.' may be any dot after the '@' that leaves a non-empty run) |
| Validation.EmailOkMeansShape | lib/validation.ts:14-16 | the e-mail check passes iff the field is a string of that shape |
| Validation.UserErrors | lib/validation.ts:7-19 | the name message appears iff the name is not a string at least 2 characters long after trimming; the e-mail message appears iff the e-mail is not a string of e-mail shape; the list is empty iff both checks pass; the messages come name first |
| Validation.ValidateUser | lib/validation.ts:7-19 | building the list one check at a time yields exactly UserErrors |
| Validation.PostErrors | lib/validation.ts:21-37 | the title (content) message appears iff the title (content) is not a string that is non-empty after trimming; the author message appears iff authorId is not a non-zero number; the list is empty iff all three pass; order is title, content, author |
| Validation.ValidatePost | lib/validation.ts:21-37 | building the list one check at a time yields exactly PostErrors |
| MockData.UserIndex | lib/mock-data.ts:79-80 | the index of the first user with the id, None exactly when none has it |
| MockData.EmailIndex | lib/mock-data.ts:63 | the index of the first user whose e-mail is exactly the given string, None when none matches |
| MockData.PostIndex | lib/mock-data.ts:147-148 | the index of the first post with the id, None when none has it |
| MockData.Strip | lib/mock-data.ts:56 | the same user, every field kept except the password, which is absent |
| MockData.FindUser | lib/mock-data.ts:54 | the first stored user with the id, as users.find returns it, present exactly when some user has it |
| MockData.FindAllUsers | lib/mock-data.ts:49-51 | every user, in order, each without a password |
| MockData.FindUserById | lib/mock-data.ts:53-60 | present exactly when a user has the id; the record is that user without its password |
| MockData.FindUserByEmail | lib/mock-data.ts:62-64 | present exactly when a user's e-mail equals the string as stored; then the FIRST such record, as users.find returns it, password included |
| MockData.WithAuthor | lib/mock-data.ts:108 | the post unchanged, with an author exactly when some user has its authorId, and then a stored user with that id |
| MockData.FindAllPosts | lib/mock-data.ts:105-110 | every post, in order, each joined with the user its authorId names |
| MockData.FindPostById | lib/mock-data.ts:112-121 | present exactly when a post has the id; the post joined with its author |
| MockData.FindPostsByAuthor | lib/mock-data.ts:123-130 | exactly the posts with that authorId, each joined with that author |
| MockData.MergeUser | lib/mock-data.ts:82-86 | supplied fields replace stored ones, the others and the id and creation time stay, updatedAt is the clock |
| MockData.MergePost | lib/mock-data.ts:150-154 | supplied fields replace stored ones, the others and the id and creation time stay, updatedAt is the clock |
| MockData.Store.constructor | lib/mock-data.ts:4-45 | the two seeded users and posts, both counters at 3, e-mails unique and every post's author present |
| MockData.Store.CreateUser | lib/mock-data.ts:66-76 | appends the user under the counter's id and increments the counter; the id was never issued before, exceeds every stored id and joins the issued ids; the reply has no password |
| MockData.Store.UpdateUser | lib/mock-data.ts:78-90 | an absent id changes nothing and gives None; otherwise only the record at the found index changes, to the merge, and the reply has no password; counters and issued ids unchanged |
| MockData.Store.DeleteUser | lib/mock-data.ts:92-100 | false and no change for an absent id; otherwise the user is spliced out and exactly that author's posts are dropped, the rest keeping their order; every remaining post still has its author; counters and issued ids unchanged, so a deleted id stays issued |
| MockData.Store.CreatePost | lib/mock-data.ts:132-144 | appends the post under the counter's id, increments the counter, adds the id to the issued ids, and returns it joined with its author, without checking that the author exists |
| MockData.Store.UpdatePost | lib/mock-data.ts:146-160 | an absent id changes nothing and gives None; otherwise only the post at the found index changes, to the merge, joined with the author its possibly new authorId names; counters and issued ids unchanged |
| MockData.Store.DeletePost | lib/mock-data.ts:162-168 | false and no change for an absent id; otherwise exactly that post is spliced out and users are untouched; counters and issued ids unchanged |
| MockData.RemoveOnlyMatch | lib/mock-data.ts:96 | with increasing ids, splicing out a user removes exactly the records with its id and keeps the order |
| MockData.RemovePostOnlyMatch | lib/mock-data.ts:166 | with increasing ids, splicing out a post removes exactly the records with its id and keeps the order |
| MockData.CascadeKeepsOrder | lib/mock-data.ts:98 | the cascade keeps the remaining posts in id order |
| MockData.CascadeOnlyMatch | lib/mock-data.ts:98 | the cascade keeps exactly the posts of other authors |
| MockData.DeleteKeepsAuthors | lib/mock-data.ts:92-100 | deleting a user with their posts leaves no post whose author is missing |
| MockData.DeleteUserSound | lib/mock-data.ts:92-100 | after the splice and the cascade both arrays stay in id order, every live id stays issued, exactly the user's id and posts are gone, and authors stay live |
| MockData.AppendKeepsAuthors | lib/mock-data.ts:132-144 | appending a post whose author is live keeps every post's author live |
| MockData.FindCreatedUser | lib/mock-data.ts:66-76 | a freshly created user is what findById then returns |
| MockData.FindCreatedPost | lib/mock-data.ts:132-144 | a freshly created post is what findById then returns, joined with its author |
| UsersRoute.HandleGet | app/api/users/route.ts:12-20 | 200 with every stored user, in order, each the stored record with every field kept but the password, which is absent |
| UsersRoute.NormaliseEmail | app/api/users/route.ts:70 | the lower-cased, trimmed e-mail: the infix of ToLower(email) with only white space before and after it, no longer than the input, with no white space at either end and no upper-case ASCII letter |
| UsersRoute.NormaliseIdempotent | app/api/auth/login/route.ts:27 | normalising an e-mail the store already keeps gives it back unchanged |
| UsersRoute.PasswordOrDefault | app/api/users/route.ts:71 | the body's password when non-empty, "defaultpassword" otherwise; never empty |
| UsersRoute.ConflictAsWritten | app/api/users/route.ts:56-57 | true exactly when a stored e-mail equals the body's e-mail verbatim |
| UsersRoute.Conflict | app/api/users/route.ts:56-57 | true exactly when a stored e-mail equals the body's e-mail lower-cased and trimmed |
| UsersRoute.ConflictAsWrittenAdmitsDuplicate | app/api/users/route.ts:56-72 | whenever a valid body passes the verbatim check while its lower-cased, trimmed e-mail is already stored, the normalised check would refuse it and the user the route creates duplicates the stored e-mail |
| UsersRoute.ExampleBodyValid | lib/validation.ts:7-19 | the body with name "Bo" and e-mail "A@b.co" passes validation |
| UsersRoute.ExampleIsValid | lib/validation.ts:2-5 | "A@b.co" has e-mail shape |
| UsersRoute.ExampleNoVerbatimMatch | app/api/users/route.ts:56-57 | with only "a@b.co" stored, "A@b.co" finds no user verbatim |
| UsersRoute.ExampleNormalised | app/api/users/route.ts:70 | "A@b.co" is stored as "a@b.co" |
| UsersRoute.ConflictKeepsEmailsUnique | app/api/users/route.ts:56-72 | a user whose normalised e-mail passed the corrected check keeps e-mails unique |
| UsersRoute.HandlePostAsWritten | app/api/users/route.ts:39-81 | 400 with the messages joined by ", " and no change; 409 and no change when the verbatim e-mail is stored; otherwise exactly one user appended with trimmed name, lower-cased trimmed e-mail and the password or its default, and 201 with it minus password; the user counter and issued ids move exactly on 201 |
| UsersRoute.HandlePost | app/api/users/route.ts:39-81 | as the route, with the 409 check on the normalised e-mail; e-mails stay unique; the user counter and issued ids move exactly on 201 |
| PostsRoute.AuthorQuery | app/api/posts/route.ts:23-25 | an author filter only for a non-empty parameter, and then parseInt's result (none for NaN) |
| PostsRoute.PublishedQuery | app/api/posts/route.ts:31-32 | a published filter exactly when the parameter is present, selecting published posts exactly for "true" |
| PostsRoute.HandleGet | app/api/posts/route.ts:14-40 | 200 with exactly the joined posts passing both requested filters, as a subsequence of findAll in store order |
| PostsRoute.FilterViewsByAuthor | app/api/posts/route.ts:26 | filtering the joined list by author equals the store's findByAuthorId |
| PostsRoute.GetByAuthorIsFindByAuthor | app/api/posts/route.ts:23-28 | a query naming an author id in decimal lists exactly that author's posts |
| PostsRoute.PublishedOrFalse | app/api/posts/route.ts:92 | published exactly when the body says true |
| PostsRoute.Publish | app/api/posts/route.ts:88-102 | exactly one post appended with trimmed title and content and published defaulting to false; 201 with it and its author; the post counter moves by one and its old value joins the issued ids |
| PostsRoute.HandlePost | app/api/posts/route.ts:59-102 | 400 with the joined messages and no change; 404 and no change when no user has the author id; otherwise the post is created and every post still has its author; the post counter and issued ids move exactly on 201 |
| LoginRoute.Token | app/api/auth/login/route.ts:52 | starts with "mock-jwt-token-"; what follows reads back through parseInt as the user id; after the id comes '-' and then the clock reading, which reads back as the clock |
| LoginRoute.Login | app/api/auth/login/route.ts:12-64 | 400 exactly when the e-mail or password is missing or empty; success exactly when the lower-cased, trimmed e-mail finds a user with a non-empty stored password; 401 otherwise; on success the user without password and the token |
| LoginRoute.LoginIgnoresPassword | app/api/auth/login/route.ts:39-49 | any two non-empty passwords give the same reply |
| LoginRoute.TokenNamesUser | app/api/auth/login/route.ts:52 | a successful login's token names the returned user's id |
| LoginRoute.FindAppended | app/api/auth/login/route.ts:27 | an appended user is the one the e-mail lookup finds when no earlier user has that e-mail |
| LoginRoute.LoginFinds | app/api/auth/login/route.ts:27-64 | once the lower-cased, trimmed e-mail finds a user with a non-empty stored password, any non-empty password logs in as that user |
| LoginRoute.RegisteredUserCanLogin | app/api/auth/login/route.ts:27-64 | a user created through the corrected POST /api/users can log in with the e-mail spelled as at registration, and the login returns that user |

## Left out

- Next.js plumbing is not modelled: `NextRequest`, `NextResponse`, reading the JSON body and parsing the URL. The try/catch paths that answer 500 are not modelled either. On the modelled inputs nothing throws once the body is parsed. In the source an e-mail sent as a JSON array such as `["a@b.co"]` passes `validateUser`, because the regular expression test converts it to the string "a@b.co" (`lib/validation.ts:4`, `:14`). `toLowerCase` then throws at `app/api/users/route.ts:70`, and the route answers 500 (`:82-89`). Arrays are not among the modelled JSON values, so this path is not modelled.
- The `[id]` routes (GET, PUT and DELETE by id) and the UI pages are not part of this model. The store's update and delete, which those routes call, are modelled.
- `new Date()` and `Date.now()` become a clock parameter. MockData.Store.CreateUser and MockData.Store.CreatePost use one reading for both timestamps, whereas the source reads the clock twice.
- Text.ToLower maps only the ASCII letters. JavaScript's full Unicode case mapping is not modelled.
- Text.Trim and the length checks count characters. JavaScript counts UTF-16 code units, which differs for characters outside the Basic Multilingual Plane.
- Validation.UserErrors and Validation.PostErrors take JSON fields that are absent, null, a boolean, an integer or a string. Objects, arrays and non-integer numbers are not modelled, and neither is NaN. So a fractional authorId, which would pass validation and then answer 404, cannot be expressed.
- Some body fields are modelled with the type the request interfaces declare: the user password (an optional string), the post `published` flag (an optional boolean) and the login fields (optional strings). A body carrying another JSON type there is not modelled.
- Text.ParseInt is exact for every integer. JavaScript loses precision above 2^53 and can return -0.
- MockData.MergeUser and MockData.MergePost merge only the fields of the update request types. A patch that spreads an `id`, `createdAt` or `updatedAt` key over the record is not modelled.
- The optional `posts` field of the user type is not modelled; no core code sets it.
- Concurrency is not modelled. The store is used by one request at a time.

## Findings

| source | as written | input that shows it | evidently intended | confidence | as-written member | corrected member |
|---|---|---|---|---|---|---|
| app/api/users/route.ts:56 | the 409 check looks up the body's e-mail verbatim, but line 70 stores it lower-cased and trimmed | "a@b.co" stored; POST name "Bo", e-mail "A@b.co": validation passes, no verbatim match, and a second user with "a@b.co" is created | look up the e-mail the store will keep, so no two users share an e-mail | not executed | UsersRoute.ConflictAsWrittenAdmitsDuplicate | UsersRoute.HandlePost |
