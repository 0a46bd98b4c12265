# E-commerce API core in Dafny

A functional model of the request handlers of an Express/Mongoose
e-commerce API: user registration and the refresh-token session life
cycle, profile and password management, the product catalogue (create,
paged listing, read, owner-or-admin update, soft delete), categories, the
Mongoose schemas and their hooks, the request-body validator chains and the
error middleware.

The database is an immutable `Store` holding one sequence per collection,
in natural order. Every handler is a pure function from a store and a
request to a `Step`: the store afterwards plus an `Outcome`. An outcome is
one of:

- a reply;
- a `res.status(code).json({ message })` refusal;
- an error handed to `next(error)`, which the error middleware answers
  with 500;
- a rejection that escapes a handler without `try`.

`save()` is modelled in the order Mongoose runs it: the validators, then
the pre-save hook, then the unique indexes. A failed save leaves the store
unchanged.

Abstractions:

- bcrypt is an injective `Hash` with `Compare(x, d) <==> d == Hash(x)`.
  Salts are not modelled.
- A JWT is a datatype of issued access tokens, issued refresh tokens and
  arbitrary client strings.
- A refresh token carries a serial taken from a counter the store advances
  on every login, so no two issued refresh tokens are equal. Real tokens
  are not unique in that way: two logins of one user within the same
  second can mint the same token, because the issue time is counted in
  seconds. And bcrypt reads only the first 72 bytes of a token, which name
  the user and nothing else (see Findings). `Refreshable` and the session
  lemmas built on it state the intended check, which compares whole tokens.
- The server mounts no cookie parser, so as wired every refresh request
  fails before the handler's `try` (see Findings). `Auth.Refresh` is the
  handler as it behaves once a cookie parser is in place.
- Clock readings, token lifetimes, fresh document ids, uploaded file names
  the keyword matcher of the product search and the database's test of
  whether a keyword is a valid regular expression are parameters.
- The authentication gate is not modelled. Protected handlers receive the
  authenticated `(userId, role)` pair.

Modules, by source file:

| module | source file |
|---|---|
| `Text` | slugs, `trim`, lower-casing, `split(',')`, the e-mail pattern |
| `Users` | models/User.js |
| `Products` | models/Product.js |
| `Categories` | models/Category.js |
| `Database` | the store, the lookups and the three saves |
| `Auth` | controllers/authController.js |
| `Sessions` | lemmas over sequences of authentication calls |
| `Profiles` | controllers/userController.js |
| `Catalog` | controllers/productController.js |
| `Taxonomy` | controllers/categoryController.js |
| `Validation` | middleware/validationMiddleware.js |
| `Http` | middleware/errorMiddleware.js |

Where the code and its design description differ, the model follows the
code:

- `refreshToken` never rotates the refresh token. It writes nothing, and
  only a login replaces the stored hash.
- `changePassword` does not revoke the caller's refresh token.
- The validator chains exist but are attached to no route, so they are
  modelled as stand-alone predicates and not as part of the handlers.

## Model

| member | source | states |
|---|---|---|
| Text.SlugShape | controllers/productController.js:5 | a slug contains no whitespace and no upper-case letter and is never longer than the name |
| Text.SlugIdempotent | controllers/productController.js:5 | applying `createSlug` to a slug changes nothing |
| Text.SlugOfBlankFreeName | controllers/categoryController.js:4 | a name without blanks gets its lower-cased self as slug |
| Text.SlugJoinsWords | controllers/productController.js:5 | a blank run between two words becomes exactly one hyphen, whatever the run's length |
| Text.Hyphenate | controllers/productController.js:5 | replacing blank runs by hyphens leaves no blank, keeps lower case, never lengthens, and leaves a blank-free string alone |
| Text.TrimSpec | models/User.js:12-25 | the `trim` setter yields a string with no blank at either end, cuts only blanks, and leaves a trimmed string unchanged |
| Text.TrimIdempotent | models/User.js:12-25 | trimming twice is trimming once |
| Text.LowerFacts | models/User.js:26-34 | lower-casing leaves no upper-case letter, keeps trimmedness, and is the identity on lower-case strings |
| Text.JoinSplit | controllers/productController.js:31 | joining the comma-split pieces with commas gives the tag string back |
| Text.SplitJoin | controllers/productController.js:31 | splitting comma-free pieces joined by commas gives the pieces back |
| Text.Split | controllers/productController.js:31 | `split` gives at least one piece, none containing the separator |
| Crypto.CompareExact | models/User.js:74-76 | `bcrypt.compare(x, hash(y))` holds exactly when x equals y |
| Principals.ParseRole | models/User.js:40-44 | an absent role defaults to customer; a given role is accepted exactly when it is one of the three enum strings, and it round-trips |
| Principals.RoleRoundTrip | models/User.js:40-44 | every role survives the trip to its stored string and back |
| Tokens.VerifyIssued | controllers/authController.js:78 | verification accepts an issued refresh token exactly until it expires and names its user; an access token is never accepted |
| Tokens.BcryptPrefix | controllers/authController.js:44 | the part of a refresh token bcrypt reads is a refresh token naming the same user |
| Tokens.PrefixIgnoresIssue | controllers/authController.js:44 | two refresh tokens of one user agree on what bcrypt reads, whatever their serials and expiry times |
| Http.ErrorHandler | middleware/errorMiddleware.js:9-18 | status 200 becomes 500, any other status stays; the message is the error's; the stack is absent exactly in production |
| Http.UnmatchedRouteIs404 | middleware/errorMiddleware.js:2-6 | an unmatched route ends as 404 with a message naming the URL, in every environment |
| Http.ResponseStatus | middleware/errorMiddleware.js:9-12 | a forwarded error reaches the client as 500, a reply or refusal with its own status, an unhandled rejection with none |
| Users.Violation | models/User.js:12-39 | document validation fails exactly when a required path, a name length bound, the e-mail pattern or the password minimum fails |
| Users.NewUser | models/User.js:4-55 | a new user is stored through the setters: trimmed names, trimmed lower-case e-mail, active, no phone, no refresh token, plain password |
| Users.NormalizeEmailIdempotent | models/User.js:26-34 | a stored e-mail is already trimmed and lower-case, so the setters leave it unchanged when it is used as a query filter |
| Users.PreSaveSpec | models/User.js:63-71 | the pre-save hook hashes only a newly set (plain) password, after which that password matches; it leaves a hashed one and every other field alone |
| Users.MatchPasswordExact | models/User.js:74-76 | `matchPassword(p)` holds exactly when the stored digest is the hash of p, so at most one password matches |
| Products.Violation | models/Product.js:5-78 | validation fails exactly when a required path is empty, the name exceeds 200 or the description is under 50 characters, a price or the stock is negative, an image path is empty, or the rating is outside 0..5 |
| Categories.Violation | models/Category.js:5-23 | validation fails exactly when categoryId, name or slug is missing |
| Categories.NewCategory | models/Category.js:11-36 | a new category has the trimmed name, the lower-cased slug, no parent unless one is given, and is active |
| Categories.TrimDescription | models/Category.js:24-27 | the description setter trims a present description and leaves an absent one absent |
| Database.UserByEmail | controllers/authController.js:13 | `findOne({ email })` finds the first user whose e-mail equals the normalised filter, and none exactly when no user has it |
| Database.UserById | controllers/authController.js:79 | `findOne({ userId })` finds the first user with that id, and none exactly when no user has it |
| Database.UserByEmailOfLast | controllers/authController.js:13-19 | a user appended under an e-mail no stored user has is the one a later lookup by that e-mail finds |
| Database.UserByIdUnique | models/User.js:6-11 | under the unique index on userId, a lookup by a user's id finds that user |
| Database.UserByIdSameIds | controllers/userController.js:52 | lookups by id depend on the ids only |
| Database.UserByEmailSameEmails | controllers/authController.js:36 | lookups by e-mail depend on the e-mails only |
| Database.ResaveUser | models/User.js:6-34 | writing a user back with unchanged userId and e-mail passes both unique indexes |
| Database.ReplaceUserKeepsValid | models/User.js:4-60 | replacing a user by a conforming, normalised, hashed record with the same keys keeps the store valid |
| Database.SaveUser | models/User.js:4-71 | a user save succeeds exactly when the document validates and neither unique index clashes, and then stores the document after the hook |
| Database.SaveProduct | models/Product.js:3-83 | a product save succeeds exactly when the document validates and none of the productId, slug and sku indexes clashes |
| Database.SaveCategory | models/Category.js:3-41 | a category save succeeds exactly when the document validates and none of the categoryId, name and slug indexes clashes |
| Database.SaveUserKeepsValid | models/User.js:4-71 | a successful user save keeps every user valid, hashed and unique |
| Database.SaveProductKeepsValid | models/Product.js:3-83 | a successful product save keeps every product valid and the indexes unique |
| Database.SaveCategoryKeepsValid | models/Category.js:3-41 | a successful category save keeps every category valid and the indexes unique |
| Auth.Register | controllers/authController.js:9-28 | a known e-mail is 400 with the store unchanged; on a new e-mail it answers 201 exactly when the role is valid and the new user passes the validators and both unique indexes; a 201 appends exactly the new user with its password hashed and the role defaulted; anything else leaves the store unchanged |
| Auth.Login | controllers/authController.js:33-66 | an unknown e-mail and a wrong password get the same 401 and change nothing; success overwrites only that user's refresh-token hash with the hash of a freshly numbered token and replies with userId, e-mail, role and access token |
| Auth.Refresh | controllers/authController.js:71-97 | with a cookie parser and under the intended whole-token comparison: never writes; no cookie is exactly the 401 case; an unverifiable, unknown, hashless or mismatching token is 403; success is an access token for the token's user with that user's role |
| Auth.RefreshableAsWritten | controllers/authController.js:44-87 | the refresh check as bcrypt computes it, on the first 72 bytes of both tokens, accepts every token the intended whole-token check accepts |
| Auth.RefreshAsWired | controllers/authController.js:72 | without a cookie parser every refresh request leaves the store unchanged and gets no response, in every environment |
| Auth.Logout | controllers/authController.js:103-122 | an absent user still gets 200; otherwise only the caller's refresh-token hash is cleared; the cookie is emptied |
| Sessions.RefreshableExactly | controllers/authController.js:78-89 | under the intended whole-token comparison, a refresh token is accepted exactly when it is unexpired and its user holds the hash of that very token |
| Sessions.RegisterKeepsValid | controllers/authController.js:13-19 | registration keeps the store valid |
| Sessions.LoginKeepsValid | controllers/authController.js:39-45 | login keeps the store valid |
| Sessions.LogoutKeepsValid | controllers/authController.js:106-110 | logout keeps the store valid |
| Sessions.LoginKeepsIds | controllers/authController.js:43-45 | login keeps the unique index on userId |
| Sessions.LogoutSucceeds | controllers/authController.js:103-118 | on valid users logout always answers 200 and clears exactly the caller's hash |
| Sessions.LogoutIdempotent | controllers/authController.js:106-110 | logging out twice leaves the store as logging out once |
| Sessions.LogoutRevokes | controllers/authController.js:106-118 | after logout no refresh token of the caller is accepted (403), and the emptied cookie gets 401 |
| Sessions.LoginThenRefresh | controllers/authController.js:39-92 | the cookie from a login is accepted by refresh for its whole lifetime and yields an access token for that user and role |
| Sessions.LoginSupersedes | controllers/authController.js:40-45 | under the intended whole-token comparison, after a login every refresh token issued earlier to that user is rejected |
| Sessions.SecondLoginRevokesFirst | controllers/authController.js:86-89 | under the intended whole-token comparison, after two logins by one user refreshing with the first cookie is 403 |
| Sessions.SecondLoginKeepsFirstAsWritten | controllers/authController.js:40-87 | as written, after two logins by one user the first cookie is still accepted until it expires, while the intended check rejects it |
| Sessions.RefreshAnsweredWithParser | controllers/authController.js:71-97 | as wired no refresh request gets a response; with a cookie parser every one gets 200, 401 or 403 |
| Sessions.LoginLeavesOthers | controllers/authController.js:36-45 | a login changes no other user's session |
| Sessions.LoginSucceeds | controllers/authController.js:36-59 | on unique indexes, login succeeds for a conforming user whose password matches |
| Sessions.RegisterExactly | controllers/authController.js:13-19 | on a new e-mail the e-mail index never refuses: registration answers 201 exactly when the role is valid, the user conforms and its userId is free |
| Sessions.RegisterAppends | controllers/authController.js:18-24 | a registration appends one hashed, conforming user whose e-mail lookup finds it, keeping both indexes |
| Sessions.RegisterThenLogin | controllers/authController.js:9-66 | a user who has just registered can log in with the same e-mail and password |
| Sessions.ChangePasswordThenLogin | controllers/userController.js:58-61 | after a password change, login works with the new password and refuses the old one with 401 |
| Profiles.ProfileHidesSecrets | controllers/userController.js:8 | two users have the same profile exactly when they differ at most in password and refresh-token hash |
| Profiles.GetUserProfile | controllers/userController.js:6-17 | never writes; 404 exactly when the caller has no record; otherwise the caller's profile without secrets |
| Profiles.MergeText | controllers/userController.js:26-27 | a truthy request value replaces the stored name (trimmed), a falsy one keeps it, and the result stays trimmed |
| Profiles.MergePhone | controllers/userController.js:28 | the same merge for the optional phone number |
| Profiles.MergeIdempotent | controllers/userController.js:26-28 | merging the same request twice is merging it once |
| Profiles.Edited | controllers/userController.js:26-28 | the merged document differs from the stored one only in the two names and the phone |
| Profiles.UpdateUserProfile | controllers/userController.js:22-44 | 404 without a record; on success only the merged names and phone are written and the reply carries exactly userId, names, e-mail and phone |
| Profiles.UpdateProfileExactly | controllers/userController.js:26-30 | a profile update succeeds exactly when both merged names are 2..50 characters long |
| Profiles.UpdateProfileKeepsRest | controllers/userController.js:26-30 | a profile update leaves every other user and the caller's password, e-mail, role, active flag and refresh-token hash unchanged |
| Profiles.UpdateProfileIdempotent | controllers/userController.js:22-44 | sending the same profile update twice leaves the store as sending it once |
| Profiles.UpdateProfileKeepsValid | controllers/userController.js:26-30 | a profile update keeps the store valid |
| Profiles.ChangePassword | controllers/userController.js:49-65 | no record or a wrong old password is 401 with the store unchanged; success stores the hash of the new password and nothing else |
| Profiles.ChangePasswordExactly | controllers/userController.js:58-59 | with a matching old password the change succeeds exactly when a new password of at least six characters is given |
| Profiles.ChangePasswordEffect | controllers/userController.js:58-61 | afterwards the new password is the only one that matches, the refresh-token hash is untouched and every session stays as refreshable as before |
| Profiles.ChangePasswordKeepsValid | controllers/userController.js:58-59 | a password change keeps the store valid |
| Catalog.ImagePaths | controllers/productController.js:15 | one `/uploads/<filename>` path per uploaded file, in order |
| Catalog.TagList | controllers/productController.js:31 | no tag string gives no tags; otherwise the pieces re-join to the tag string |
| Catalog.Drafted | controllers/productController.js:20-32 | the new document has the trimmed name, the slug of the name as sent, the caller as seller, stock defaulting to 0, rating 0, active, and setters applied |
| Catalog.CreateProduct | controllers/productController.js:10-40 | no image is 400 before anything else; a missing name is a TypeError; with images, a name and a price it answers 201 exactly when the draft conforms and its productId, slug and sku are free; a 201 appends exactly the drafted product owned by the caller; anything else leaves the store unchanged |
| Catalog.PageOf | controllers/productController.js:47 | an absent, unparsable or zero page number means page 1 |
| Collections.FilterCounts | controllers/productController.js:53-54 | filtering keeps every accepted document as many times as it occurs and drops every other one |
| Catalog.Listed | controllers/productController.js:49-54 | the listing holds exactly the active products the keyword matches (all active ones without a keyword), each as often as it is stored |
| Catalog.PageCount | controllers/productController.js:58 | the page count is the least number of 10-item pages covering the count |
| Catalog.GetProducts | controllers/productController.js:45-59 | never writes; a keyword that is not a valid regular expression, or a page below 1, is an unhandled rejection; otherwise at most 10 items, the consecutive run of the listing starting at 10·(page−1), with the page and page count |
| Catalog.PageBody | controllers/productController.js:54-58 | a page holds at most ten products, the consecutive run of the listing after the 10·(page−1) skipped ones, and is short only when the listing runs out |
| Catalog.ListedOnItsPage | controllers/productController.js:53-58 | the j-th listed product is item j mod 10 of page j div 10 + 1, within the page count |
| Catalog.PastTheLastPage | controllers/productController.js:54-56 | a page past the page count is empty |
| Catalog.ProductById | controllers/productController.js:84 | the lookup by productId finds the first product with that id, whether active or not |
| Catalog.ActiveProductById | controllers/productController.js:66 | the lookup finds only an active product with that id |
| Catalog.GetProductById | controllers/productController.js:64-75 | never writes; answers exactly when an active product has the id, and then with that active product; otherwise 404 |
| Catalog.Patched | controllers/productController.js:95-100 | name, description, price, stock and category take the request value only when it is truthy; the slug is remade only for a given name; every other field is kept |
| Catalog.UpdateProduct | controllers/productController.js:81-108 | 404 for an unknown id and 403 unless the caller is seller or admin, both without writing; success writes exactly the merged product |
| Catalog.UpdateProductExactly | controllers/productController.js:95-102 | an allowed update succeeds exactly when the merged document validates and its slug is free |
| Catalog.ZeroCannotBeSet | controllers/productController.js:98-99 | a requested stock or price of 0 leaves the stored value unchanged |
| Catalog.DeleteProduct | controllers/productController.js:114-135 | same 404/403 gates; success only clears that product's active flag and answers 204 |
| Catalog.DeleteProductSucceeds | controllers/productController.js:127-130 | on a valid store an allowed delete always answers 204, also for an inactive product |
| Catalog.DeleteProductIdempotent | controllers/productController.js:116-130 | deleting twice leaves the store as deleting once |
| Catalog.DeletedIsHidden | controllers/productController.js:127 | after a delete the product is 404 by id and absent from every listing page |
| Catalog.CreateProductKeepsValid | controllers/productController.js:34 | creating a product keeps the store valid |
| Catalog.UpdateProductKeepsValid | controllers/productController.js:102 | updating a product keeps the store valid |
| Catalog.DeleteProductKeepsValid | controllers/productController.js:128 | deleting a product keeps the store valid |
| Catalog.SlugOfUntrimmedName | controllers/productController.js:22 | the slug is made from the name before trimming, so " Tv" is stored as "Tv" with slug "-tv" |
| Taxonomy.CategoryByName | controllers/categoryController.js:14 | the name lookup, trimmed like the stored names, finds a category exactly when one has that name, active or not |
| Taxonomy.CategoryById | controllers/categoryController.js:45 | the lookup by categoryId finds the first category with that id |
| Taxonomy.CreateCategory | controllers/categoryController.js:9-25 | a missing name is a TypeError; a taken name is 400; a free name answers 201 exactly when the new category conforms and its id, name and slug are free; a 201 appends exactly one active category with the trimmed name and the slug of the name as sent |
| Taxonomy.GetCategories | controllers/categoryController.js:30-37 | never writes; lists exactly the categories whose flag is true, each as often as it is stored |
| Taxonomy.CreateCategoryExactly | controllers/categoryController.js:14-20 | for a name the lookup found free, the name index never refuses: creation answers 201 exactly when the category conforms and its id and slug are free |
| Taxonomy.CreatedIsListed | controllers/categoryController.js:19-20 | a category just created is listed after the ones listed before, and nothing else is added |
| Taxonomy.DeletedIsUnlisted | controllers/categoryController.js:76-77 | under the unique id index, a deleted category is no longer listed and every other listed category still is |
| Taxonomy.Reworked | controllers/categoryController.js:51-55 | name and description take truthy request values only; the slug is remade only for a given name; parent and active flag are overwritten with the request values even when absent |
| Taxonomy.UpdateCategory | controllers/categoryController.js:42-62 | 404 for an unknown id without writing; for a known id it answers 200 exactly when the merged category conforms and no other category holds its id, name or slug; success writes exactly the merged category |
| Taxonomy.UpdateCategoryExactly | controllers/categoryController.js:46-58 | under the unique id index, an update of a known category succeeds exactly when the merge conforms and no other category holds its name or slug |
| Taxonomy.UpdateWithoutFlagHides | controllers/categoryController.js:55 | an update that omits `isActive` drops the category from the public listing |
| Taxonomy.DeleteCategory | controllers/categoryController.js:67-83 | 404 for an unknown id; success only sets the flag to false and answers 204 |
| Taxonomy.DeleteCategorySucceeds | controllers/categoryController.js:76-79 | on a valid store deleting a known category always answers 204 |
| Taxonomy.DeleteCategoryIdempotent | controllers/categoryController.js:69-79 | deleting twice leaves the store as deleting once |
| Taxonomy.CreateCategoryKeepsValid | controllers/categoryController.js:19-20 | creating a category keeps the store valid |
| Taxonomy.UpdateCategoryKeepsValid | controllers/categoryController.js:57 | updating a category keeps the store valid |
| Taxonomy.DeleteCategoryKeepsValid | controllers/categoryController.js:76-77 | deleting a category keeps the store valid |
| Validation.Failures | middleware/validationMiddleware.js:14 | a chain reports the message of every validator that fails and only those, and nothing exactly when all hold |
| Validation.ChainErrors | middleware/validationMiddleware.js:46 | a chain adds no error exactly when it is skipped as optional or all its validators hold |
| Validation.Errors | middleware/validationMiddleware.js:5 | the error list is empty exactly when every chain is satisfied |
| Validation.HandleValidationErrors | middleware/validationMiddleware.js:4-10 | any error answers 400 with the full list; otherwise control passes on |
| Validation.RegisterAccepts | middleware/validationMiddleware.js:13-19 | registration passes exactly with names of 2..50 characters, an e-mail-shaped e-mail and a password of at least 6 |
| Validation.LoginAccepts | middleware/validationMiddleware.js:21-25 | login passes exactly with an e-mail-shaped e-mail and a non-empty password |
| Validation.ChangePasswordAccepts | middleware/validationMiddleware.js:27-31 | a password change passes exactly with a non-empty old password and a new one of at least 6 |
| Validation.CreateProductAccepts | middleware/validationMiddleware.js:35-43 | product creation passes exactly with non-empty name, sku and category, a description of at least 20, a positive price and a non-negative integer stock |
| Validation.UpdateProductAccepts | middleware/validationMiddleware.js:45-52 | a product update passes exactly when each field present meets its creation rule |
| Validation.CreatableIsUpdatable | middleware/validationMiddleware.js:35-52 | every body accepted for creation is accepted for update |
| Validation.CreateCategoryAccepts | middleware/validationMiddleware.js:56-60 | category creation passes exactly with a non-empty name |
| Validation.UpdateCategoryAccepts | middleware/validationMiddleware.js:62-66 | a category update passes exactly when a given name is non-empty and a given isActive is a boolean spelling |
| Validation.MissingFirstNameTwice | middleware/validationMiddleware.js:14 | a missing first name yields both its required message and the default length message |
| Validation.DescriptionGap | middleware/validationMiddleware.js:37 | a body with a 20-character description passes the validators though the schema needs 50 |
| Validation.PriceWithFraction | middleware/validationMiddleware.js:38 | "19.99" is a positive price |
| Validation.PriceWithExponent | middleware/validationMiddleware.js:38 | "2e3" is a positive price |
| Validation.DigitsAreNumbers | middleware/validationMiddleware.js:38-39 | a non-empty string of digits is always a valid stock, and a valid price exactly when one digit is not zero |
| Validation.PriceRejected | middleware/validationMiddleware.js:38 | "0", "-4" and "1.2.3" are not positive prices |

## Left out

- Server bootstrap, database connection, security middleware, static files, the seeder and the seed data: these are I/O and fixtures. The seed slugs are not claimed to equal `createSlug` of their names.
- Routing and the `protect`/`admin`/`seller` gate: middleware/authMiddleware.js is not part of this model. Protected handlers take the authenticated caller as a parameter, and the category handlers, which the routes admit to administrators only, have no gate of their own.
- utils/generateToken.js is not part of this model. Token lifetimes are a parameter, JWT signing and secrets are abstracted into the `Token` datatype, and expiry is compared against a clock reading passed in.
- bcrypt salts, cost factors and the constant-time comparison. A digest is the injective image of its input.
- Cookie attributes (httpOnly, secure, sameSite, maxAge, expires) are transport concerns. The model keeps only the cookie's value.
- Multer uploads (only the file names are modelled), `JSON.parse(specifications)` and the SyntaxError it may throw, `createdAt`/`updatedAt`, and the `specifications` map.
- Prices are whole cents and the rating a real number. JavaScript floating point is not modelled.
- Requests and store writes are sequential. Concurrent requests and async interleaving are not modelled.
- The `$regex` keyword search is an abstract matcher parameter.
- Unicode. Blanks are the ASCII whitespace characters and lower-casing is ASCII. A JavaScript string's UTF-16 length is the length of a `seq<char>`.
- Register and login bodies always carry string fields. An absent e-mail, which Mongoose drops from the query filter, is not modelled.
- Validation.Holds: `isEmail` is approximated by the schema's `\S+@\S+\.\S+` pattern rather than validator.js's full e-mail grammar.
- Validation.PositiveFloat: a numeral with an exponent so small that it underflows to 0 is treated as positive.
- The sanitisers `.trim()` of the validator chains, which rewrite `req.body` for later handlers, are not modelled. The chains are not attached to any route.
- The error values: a failed save forwards a `ValidationError` naming one failing path, or a duplicate-key error naming the index. Mongoose's full message text, and which path it names when several fail, are not modelled.
- Catalog.GetProducts: a non-integer page number is not modelled. The database's syntax of regular expressions is a parameter. A keyword it rejects, and the negative skip of a page below 1, both reject outside any `try`; that is the `Unhandled` outcome. Which of the two is reported when both apply is fixed to the keyword, which the count query meets first.
- Http.ResponseStatus: an unhandled rejection is "no response", which is how Express 4 behaves. The request hangs, and on Node 15 or later the process exits on the rejection. Express 5 would pass the rejection to `errorHandler` and answer 500.
- Catalog.ZeroCannotBeSet, Catalog.Patched, Taxonomy.Reworked: request fields are taken as JSON-typed values, as `express.json()` delivers them. A URL-encoded or multipart body carries strings, so a price or stock of "0" is truthy and is written (Mongoose casts it to 0), and an `isActive` of "false" is cast to false. A string Mongoose cannot cast fails the save with a CastError, answered 500. Neither string path is modelled.
- Auth.Refresh, Sessions.RefreshableExactly: modelled as if a cookie parser were mounted, and with the intended whole-token comparison. As wired, the handler throws before its `try` on every request; that behaviour is `Auth.RefreshAsWired`. As written, bcrypt compares only the first 72 bytes, so every unexpired refresh token of a user matches while any hash is stored; that comparison is `Auth.RefreshableAsWritten` (see Findings).
- Sessions.LoginSupersedes, Sessions.SecondLoginRevokesFirst: these state the intended whole-token comparison. As written, bcrypt's 72-byte cut makes every earlier refresh token of the user still match (`Sessions.SecondLoginKeepsFirstAsWritten`). Even with a whole-token comparison, two logins within the same second would mint the same token, which the serial keeps apart. utils/generateToken.js is not part of this model, so the token's exact claims are not known here.
- Tokens.BcryptPrefix: keeps the whole user id, while bcrypt reads only about its first 15 characters. The two differ only between users whose ids share that start, and refresh never compares one user's token with another user's digest.
- Users.MatchPassword: bcrypt ignores password bytes past the 72nd, so two passwords that agree on their first 72 bytes both match. The model's hash reads the whole password.
- Profiles.ChangePassword: bcrypt's rejection of a missing old password is modelled as one fixed `Error` value.

## Findings

| source | as written | input that shows it | evidently intended | confidence | as-written member | corrected member |
|---|---|---|---|---|---|---|
| controllers/authController.js:43-44 | the refresh token is hashed and compared with bcrypt, which reads only the first 72 bytes: the token's header and the start of a payload naming the user | log in twice as the same user, then refresh with the first login's cookie before it expires: it is accepted | a login supersedes every earlier refresh token of that user, so the first cookie gets 403 | high; not executed | Auth.RefreshableAsWritten, Sessions.SecondLoginKeepsFirstAsWritten | Auth.Refreshable, Sessions.LoginSupersedes, Sessions.SecondLoginRevokesFirst |
| controllers/authController.js:72 | `req.cookies.refreshToken` is read before the `try`, and index.js mounts no cookie parser, so `req.cookies` is undefined and the handler throws a TypeError | any `POST /api/auth/refresh-token`, with or without a `refreshToken` cookie | a cookie parser is mounted: 401 without a cookie, 403 for a bad one, 200 with a new access token otherwise | high; not executed | Auth.RefreshAsWired | Auth.Refresh, Sessions.RefreshAnsweredWithParser |
