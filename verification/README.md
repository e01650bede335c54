# staplab-backend in Dafny

This is a model of the back end of the STAP Lab web site. It is an Express
service over a relational store with four tables: posts, research entries,
team members and users. An image host keeps the pictures of posts and
research entries. The model covers:

- the CRUD handlers of the four controllers;
- login and password reset;
- the upload middleware in front of the post and research routes;
- deletion of hosted images and recovery of an image's public id from its URL;
- the three seed scripts;
- the secure password generator.

Each handler is a pure function from a request body, the table and the
answers of its collaborators to a `Step`. A `Step` holds the reply (status
and payload), the table afterwards, and the calls made to the image host's
delete endpoint.

Collaborators are parameters:

- the store's own failures are a `Db` oracle;
- `JSON.parse`, `bcrypt.hash` and `bcrypt.compare` are functions;
- the image host's availability is one boolean per request;
- `Math.random()` is a sequence of rationals in [0, 1).

Modules:

- `Js`: JavaScript values, truthiness, `||` and `===`.
- `Store`: tables with auto-increment keys, unique columns and `findOne`.
- `Http`: bodies, replies and steps.
- `PublicIds`: the two regular expressions that recover a public id, modelled
  with their leftmost, greedy and lazy matching semantics.
- `Cloudinary`: the upload middleware, `deleteImage` and `extractPublicId`.
- `ImageLifecycle`: which public id a row records, which one an update
  retires, and which one a failed request cleans up.
- `Posts`, `Researches`, `Teams` and `Users`: the controllers, plus the
  routes that put the upload middleware in front of them.
- `Seeds`: the seed scripts and the bundled team roster.
- `Password`: the password generator.

## Model

| member | source | states |
|---|---|---|
| Store.WriteError | models/post.model.js:9-13 | a write succeeds exactly when the store does not fail and the unique column is free; otherwise the store's own message when it fails, else "Validation error" |
| Store.FindOne | controllers/user.controller.js:136 | `findOne({ where })` gives a row that matches and has no matching row with a smaller key, or nothing when no row matches |
| Store.FindOneUnique | models/user.model.js:9-13 | under a unique column, `findOne` on that column finds the one row that holds the value |
| Store.InsertKeepsKeys | models/post.model.js:9-13 | an insert whose unique value is free keeps keys below the sequence and the column unique |
| Store.PutKeepsKeys | models/user.model.js:9-13 | an update that takes no other row's unique value keeps the column unique |
| Store.DropKeepsKeys | models/research.model.js:9-13 | a delete keeps the keys and the unique column well formed |
| Store.Keys | controllers/team.controller.js:37 | the listing order: every key of the table exactly once, strictly ascending |
| Http.ListViews | controllers/post.controller.js:61-64 | a listing has one entry per row, in key order, each the row's public view |
| PublicIds.VersionEnd | middleware/cloudinary.js:86 | the close of the `/v\d+/` segment that starts at a position: found exactly when the segment matches there, and it is the only close that does |
| PublicIds.RuntimeCapture | middleware/cloudinary.js:86 | no match exactly when no start admits `/v\d+/(.+)\.`; otherwise the capture of the leftmost start with the longest `.+` |
| PublicIds.RuntimeCaptureEndsAtLastDot | middleware/cloudinary.js:86 | on one line, the runtime capture stops at the last `.` of the URL |
| PublicIds.SeedCapture | seeds/seedPosts.js:17 | no match exactly when no start admits `/v\d+/(.*?)(?:\.\w+)?$`; otherwise the capture of the leftmost start with the shortest `.*?` |
| PublicIds.SeedChosenUnique | seeds/seedTeams.js:17 | the reported match of the seed pattern is unique |
| PublicIds.TerminatorBlocksSeed | seeds/seedResearchs.js:17 | a line terminator after the version segment rules out a seed match there, because `.` cannot cross it and `$` is end of input |
| PublicIds.SeedCaptureDropsExtension | seeds/seedPosts.js:17 | on one line, the seed capture is everything after the first version segment, minus a final `.\w+` extension if there is one |
| PublicIds.PatternsAgreeWithExtension | middleware/cloudinary.js:86 | for a one-line URL that ends in `.<word chars>` and that the runtime pattern matches, the seed and runtime patterns capture the same id |
| PublicIds.ExtensionlessUrlPatternsDisagree | seeds/seedTeams.js:17 | for `host/v<digits>/<id>` with no dot in the id, the runtime pattern finds nothing while the seed pattern captures the id |
| PublicIds.HostedUrlCapture | middleware/cloudinary.js:86-87 | for `host/v<digits>/<id>.<ext>` with dots only before the extension, the runtime capture is exactly the id |
| Cloudinary.ExtractPublicId | middleware/cloudinary.js:82-88 | `null` for anything but a non-empty string; otherwise a non-empty string exactly when the pattern matches, namely the chosen match's capture |
| Cloudinary.ExtractPublicIdOfHostedUrl | middleware/cloudinary.js:82-88 | the URL the host gives an upload yields that upload's public id |
| Cloudinary.DeleteImage | middleware/cloudinary.js:69-79 | a falsy id calls nobody; a truthy id calls the host once with that id, and a host failure is rethrown |
| Cloudinary.TryDeleteImage | controllers/post.controller.js:129-135 | a guarded delete makes at most one call, and only for a truthy id, and never fails its caller |
| Cloudinary.UploadFailure | middleware/cloudinary.js:29-44 | an upload passes exactly when there is no file, or an `image/` file in field `image` of at most 5 MiB that the host stored; the size error is the oversized image |
| Cloudinary.HandleImageUpload | middleware/cloudinary.js:47-66 | a failed upload is refused, with its own message for oversize and for a non-image; a stored file sets `image` and `imagePublicId` and no other field; no file leaves the body alone |
| Cloudinary.WithUpload | routes/post.routes.js:9-14 | a refused upload ends the request with 400 before the handler runs; otherwise the handler sees the admitted body |
| ImageLifecycle.UploadedHandle | controllers/post.controller.js:29 | a truthy supplied `imagePublicId` wins; otherwise the id recovered from `image`; falsy only when both are |
| ImageLifecycle.Cleanup | controllers/post.controller.js:41-55 | the catch-block cleanup is one guarded delete of the uploaded id: the outer test on the body adds nothing |
| Posts.CreatePost | controllers/post.controller.js:5-56 | 400 exactly when a required field is falsy or the authors do not parse to an array; 201 exactly when complete, the store accepts and the url is free, inserting the row under the next key; 500 deletes the uploaded image; the table constraints are kept |
| Posts.GetAllPosts | controllers/post.controller.js:59-68 | 200 exactly when the store answers, listing every post without its public id |
| Posts.GetPost | controllers/post.controller.js:71-85 | 500 on a store read fault; otherwise 200 exactly when the id exists, showing the post without its public id, and 404 "Post not found" when it does not |
| Posts.UpdatePost | controllers/post.controller.js:88-155 | 500 on a read fault; 404 exactly for a missing id; on an existing row, 400 exactly when the authors do not parse, else 200 exactly when the store accepts the write and the merged url is free, and 500 otherwise; 200 replaces only that row; 500 cleans up the uploaded image; at most one host call; constraints kept |
| Posts.DeletePost | controllers/post.controller.js:158-181 | 500 on a read fault; 200 exactly when the id exists and the store accepts; the image is deleted first whenever the row is found, and its failure does not stop the delete |
| Posts.CreatedPostReadsBack | controllers/post.controller.js:29-40 | a created post reads back by its new id with the fields sent, the parsed authors and empty paragraphs; earlier posts are unchanged |
| Posts.UpdatePostMerges | controllers/post.controller.js:117-127 | each truthy field replaces the stored one and an empty one keeps it; authors only when they parse to an array; paragraphs never; the public id is the uploaded one if any |
| Posts.UpdatePostRetiresReplacedImage | controllers/post.controller.js:97-102 | a successful update deletes a hosted image exactly when the body brings a different truthy image and the row had a public id, and it deletes the old id |
| Posts.UpdatePostStaleHandle | controllers/post.controller.js:100-131 | when the new image's id can be neither supplied nor recovered, the old image is deleted but the row keeps recording the old id |
| Posts.PostHostOutageInvisible | controllers/post.controller.js:129-135 | whether the image host is up never changes a reply or a table |
| Posts.DeletedPostIsGone | controllers/post.controller.js:158-181 | after a delete the post answers 404, other posts are unchanged, and the host was called exactly when the row had a public id |
| Posts.CreatePostRoute | routes/post.routes.js:9-14 | the create route runs the upload middleware and then `createPost` on the admitted body |
| Posts.UpdatePostRoute | routes/post.routes.js:29-34 | the update route runs the upload middleware and then `updatePost` on the admitted body |
| Posts.FailedCreateDeletesUpload | controllers/post.controller.js:41-48 | a stored upload whose create then fails in the store is deleted under the id the host gave it |
| Posts.RefusedCreateKeepsUpload | controllers/post.controller.js:22-26 | a stored upload whose create is refused with 400 stays on the host: no delete is attempted |
| Researches.CreateResearch | controllers/research.controller.js:5-45 | 400 exactly when one of the six fields is falsy; 201 exactly when complete, the store accepts and the url is free; 500 deletes the uploaded image; constraints kept |
| Researches.GetAllResearch | controllers/research.controller.js:48-57 | 200 exactly when the store answers, listing every entry without its public id |
| Researches.GetResearch | controllers/research.controller.js:60-72 | 500 on a read fault; otherwise 200 exactly when the id exists, and 404 "Research not found" when it does not |
| Researches.UpdateResearch | controllers/research.controller.js:75-132 | 500 on a read fault; 404 exactly for a missing id; on an existing row, 200 exactly when the store accepts the write and the merged url is free, else 500 with the uploaded image cleaned up; 200 replaces only that row; constraints kept |
| Researches.DeleteResearch | controllers/research.controller.js:135-158 | 500 on a read fault; 200 exactly when the id exists and the store accepts; the image is deleted first whenever the row is found |
| Researches.CreatedResearchReadsBack | controllers/research.controller.js:17-29 | a created entry reads back with the fields sent and the uploaded public id; earlier entries are unchanged |
| Researches.UpdateResearchMerges | controllers/research.controller.js:92-103 | each truthy field replaces the stored one and an empty one keeps it; the public id is the uploaded one if any |
| Researches.UpdateResearchRetiresReplacedImage | controllers/research.controller.js:84-89 | a successful update deletes the old image exactly when a different truthy image arrives and the row had a public id |
| Researches.ResearchHostOutageInvisible | controllers/research.controller.js:105-112 | whether the image host is up never changes a reply or a table |
| Researches.DeletedResearchIsGone | controllers/research.controller.js:135-158 | after a delete the entry answers 404, others are unchanged, and the host was called exactly when the row had a public id |
| Researches.CreateResearchRoute | routes/research.routes.js:9-14 | the upload middleware, then `createResearch` |
| Researches.UpdateResearchRoute | routes/research.routes.js:29-34 | the upload middleware, then `updateResearch` |
| Teams.ParseStatus | controllers/team.controller.js:14 | a value is accepted exactly when it is one of the four status names, and it gives the status so named |
| Teams.StatusNameRoundTrip | models/team.model.js:29-33 | every status reads back from its own name |
| Teams.NewTeam | models/team.model.js:29-33 | the model level: a missing status takes the column default CURRENT (no handler or seed reaches this branch) |
| Teams.CreateTeam | controllers/team.controller.js:4-32 | 400 exactly when a field is falsy or the status is not a valid name; 201 exactly when complete, valid and the store accepts; the stored row holds the six fields sent and the status named |
| Teams.GetAllTeams | controllers/team.controller.js:35-42 | 200 exactly when the store answers, listing every member in full |
| Teams.GetTeam | controllers/team.controller.js:45-55 | 500 on a read fault; otherwise 200 exactly when the id exists, and 404 "Team member not found" when it does not |
| Teams.UpdateTeam | controllers/team.controller.js:58-86 | 500 on a read fault; 404 exactly for a missing id; 400 exactly for a truthy invalid status on an existing row; otherwise 200 exactly when the store accepts the write, else 500; 200 replaces only that row |
| Teams.DeleteTeam | controllers/team.controller.js:89-100 | 500 on a read fault; 200 exactly when the id exists and the store accepts; 404 "Team member not found" |
| Teams.UpdateTeamMerges | controllers/team.controller.js:72-80 | each truthy field replaces the stored one and an empty one keeps it; the status changes only to the one named |
| Teams.CreatedTeamReadsBack | controllers/team.controller.js:18-28 | a created member reads back in full by its new id, with all six fields sent and the status named; earlier members are unchanged |
| Teams.DeletedTeamIsGone | controllers/team.controller.js:89-100 | after a delete the member answers 404 and the others are unchanged |
| Users.ByEmail | controllers/user.controller.js:136 | finds a user holding the email, or reports that no user does |
| Users.CreateUser | controllers/user.controller.js:8-32 | 400 exactly when a field is falsy; on a complete body, 201 exactly when hashing succeeds and the store accepts a free email, else 500; 201 stores the hash, never the password, and replies without it; constraints kept |
| Users.GetAllUsers | controllers/user.controller.js:35-44 | 200 exactly when the store answers, listing every user without the password |
| Users.GetAuthUser | controllers/user.controller.js:47-64 | 500 on a read fault; otherwise the user the token's claims name, with "User retrieved successfully", and 404 "User not found" when there is none |
| Users.GetUser | controllers/user.controller.js:68-80 | 500 on a read fault; otherwise 200 exactly when the id exists, without the password, and 404 "User not found" when it does not |
| Users.UpdateUser | controllers/user.controller.js:83-107 | 500 on a read fault; 404 exactly for a missing id; on an existing row, 200 exactly when a new password hashes and the store accepts the write with the merged email free, else 500; 200 replaces only that row and replies without the password; constraints kept |
| Users.DeleteUser | controllers/user.controller.js:110-121 | 500 on a read fault; 200 exactly when the id exists and the store accepts; 404 "User not found" |
| Users.LoginUser | controllers/user.controller.js:126-161 | 400 exactly when email or password is falsy; 500 on a read fault after that; 200 only with the claims of the user whose email matched and whose hash verified |
| Users.ResetPassword | controllers/user.controller.js:164-189 | 400 exactly when a field is falsy; on a complete body, 500 on a read fault, 404 exactly when no user has the email, and for a found user 200 exactly when hashing succeeds and the store accepts, else 500; 200 changes only that user's password, to the hash of the new one |
| Users.PasswordChangeKeepsValid | controllers/user.controller.js:183 | replacing one password keeps the table's constraints |
| Users.LoginFailuresIndistinguishable | controllers/user.controller.js:137-145 | an unknown email and a wrong password get the same 401 reply, and 401 means one of the two |
| Users.CreatedUserCanLogIn | controllers/user.controller.js:18-24 | with a consistent hash and compare, a new user logs in with the password they signed up with, and the token names them |
| Users.ResetPasswordThenLogIn | controllers/user.controller.js:180-185 | after a reset, a login with the new password succeeds under the same id |
| Users.LoginSucceeds | controllers/user.controller.js:136-157 | a login whose email finds a user and whose password verifies against that user's hash is granted with that user's id and email |
| Users.UpdateUserMerges | controllers/user.controller.js:93-99 | truthy fields replace, empty ones keep; a new password is stored only as its hash |
| Users.DeletedUserIsGone | controllers/user.controller.js:110-121 | after a delete the user answers 404 and a login with their email fails |
| Seeds.SeedHandle | seeds/seedPosts.js:16-18 | the capture of the seed pattern's chosen match when it matches, and `""` when it does not |
| Seeds.SeedHandleAgreesWithRuntime | seeds/seedPosts.js:17 | for a one-line URL with an extension that the handlers' pattern matches, seeding records the id the handlers would recover |
| Seeds.InsertAll | seeds/seedPosts.js:33-36 | a bulk insert gives the batch the next keys, in order, and changes no other row |
| Seeds.SeedTable | seeds/seedPosts.js:7-11 | a table with rows is left alone; an empty one takes the whole batch when the store accepts it, and nothing otherwise |
| Seeds.SeedKeepsKeys | seeds/seedPosts.js:33-41 | a batch with distinct unique values keeps the keys and the unique column well formed |
| Seeds.FormatPosts | seeds/seedPosts.js:14-30 | one row per entry, in order |
| Seeds.FormatPostFields | seeds/seedPosts.js:20-29 | a seeded post keeps the entry's text and image, records the seed id, and has `[]` for missing authors |
| Seeds.SeedPostsKeepsValid | seeds/seedPosts.js:7-41 | seeding posts keeps the table's constraints |
| Seeds.FormatResearches | seeds/seedResearchs.js:14-31 | one row per entry, in order |
| Seeds.SeedResearchKeepsValid | seeds/seedResearchs.js:7-37 | seeding research keeps the table's constraints |
| Seeds.SeedStatus | seeds/seedTeams.js:28 | PAST exactly when `isPast` is truthy; otherwise COLLABORATOR exactly when the occupation is the string "Collaborator"; never FUTURE |
| Seeds.FormatTeams | seeds/seedTeams.js:14-32 | one member per entry, in order |
| Seeds.SeedTeamsKeepsValid | seeds/seedTeams.js:7-38 | seeding teams keeps the constraints and adds no FUTURE member |
| Seeds.Statuses | seeds/seedTeams.js:14-32 | the statuses of a roster, one per entry, in order |
| Seeds.ShippedRosterStatuses | seeds/teamsData.js:1-163 | the sixteen bundled members seed as CURRENT for the principal researcher, PAST for the fifth member (the one marked past) and COLLABORATOR for everyone else |
| Seeds.ShippedRosterCounts | seeds/seedTeams.js:28 | so the seeded team has one CURRENT, one PAST, fourteen COLLABORATOR and no FUTURE member |
| Seeds.ShippedPhotoPatternsDisagree | seeds/teamsData.js:6-7 | the bundled photo URL has no extension: seeding records `Staplab/en5p8ujz840n9joswas5` while `extractPublicId` finds nothing |
| Password.Scale | utils/helperFunction.js:29-30 | `Math.floor(random * n)` is an index below `n` |
| Password.ScaleIsFloor | utils/helperFunction.js:29 | the index is the floor of `random * n`: `k <= random * n < k + 1` |
| Password.GetRandomCharacter | utils/helperFunction.js:28-31 | the character is one of the charset's |
| Password.ShuffleString | utils/helperFunction.js:33-40 | the shuffle keeps the length and is a permutation of the input |
| Password.GenerateSecurePassword | utils/helperFunction.js:1-26 | eight characters, all from the four classes, with at least one lowercase, uppercase, digit and special character |

## Left out

- Floating point: `Math.random()` is a rational `num / den` in [0, 1). Numbers in bodies are integers.
- The random salt of `bcrypt.hash` is not modelled: the hash is an oracle that gives the same answer for the same password.
- The token's signature, secret and expiry are not modelled. The token is represented by its claims, `id` and `email`.
- The `authenticateToken` middleware on the protected routes is not part of this model. The routes are modelled from the point after it.
- Sequelize's coercion and type validation of column values (STRING length, JSON, ENUM casting) are not modelled. The only column checks are `allowNull: false`, `unique: true` and the status values.
- The store's failures are one oracle per request. That oracle does not model which statement fails, and a single request cannot see a read succeed and a later read fail.
- `createdAt` and `updatedAt` timestamps are not modelled.
- Parsing `req.params.id` is not modelled: ids arrive as natural numbers.
- `findAll` without ORDER BY is modelled as key order.
- Users.ByEmail / Store.Taken: values are compared exactly. The MySQL store's default collation compares text case-insensitively, so `findOne` on `email` and the `unique` checks on `url` and `email` also treat values that differ only in letter case as equal; the model does not. This affects the login claims, the reset 404 and the 500 for a taken email or url.
- Users.ByEmail: a `where` on an array-valued `email` would become an `IN` query in Sequelize. The model compares the whole value instead.
- The `paragraphs` column is never written by the handlers. It takes its default `[]` on create and is carried over on update.
- Seeds.FormatTeam: the `imagePublicId` that `seedTeams` computes is kept beside the row. The `Teams` table has no such column, so `bulkCreate` drops it.
- Seeds.PostsAccepted: `bulkCreate` with `validate: true` is modelled as accepting the whole batch or none of it. It accepts when every row fills the non-null columns, the unique values are distinct, and the store does not fail. Any error is logged and swallowed.
- The bundled post and research data files are not part of this model. The team roster is represented by its occupations, past flags and first photo URL.
- Password.GetRandomCharacter requires a non-empty charset. Every call in the source passes a constant non-empty one.
- The image host's storage parameters are not modelled: folder, allowed formats and transformations. Whether the host stores a file is an oracle.
- `console` logging is not modelled, and neither are `index.js`, `config/db.js` or `utils/sendMail.js`.
- `.` in the regular expressions treats `\n`, `\r`, U+2028 and U+2029 as line terminators. Strings are sequences of characters, so surrogate pairs are not told apart.
