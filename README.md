# stick_it core in Dafny

stick_it is a server-rendered to-do board: users register and log in, and then
keep post-its on a weekly dashboard, grouped into coloured categories. This
project models its core:

- the in-memory session registry of the authentication controller
  (`createSession`, `authenticateUser`, the deletion in `logout`) and its
  weekday helpers (`getDayOfWeek`, `setDashboardToCurrentDay`, the day
  lower-casing in `buildDashboard`);
- the four data models (post-its, users, categories, colours), each SQL table
  being a class that holds its rows as a `seq` plus the next AUTO_INCREMENT
  value, and each model function a method over it;
- the validators (the "anything but one space" text rule, the weekday
  whitelist, the colour-code check).

Files:

- `outcomes.dfy`: `Option`, and `Result` over the error sentinels
  (`postItException`, `userException`, `authException`, `categoryException`,
  `databaseException`, plus a thrown `ReferenceError`; the colour model's
  `colorException` never leaves that model).
- `js_strings.dfy`: how request values reach a validator (`Arg`: a string or
  anything else), the text rule, ASCII `toLowerCase`, and the decimal text of
  an id.
- `rows.dfy`: the `WHERE` filter over rows, and the invariant of a table with an
  AUTO_INCREMENT key (keys positive, increasing, below the counter).
- `user_model.dfy`, `color_model.dfy`, `category_model.dfy`,
  `post_it_model.dfy`: one module per model file.
- `auth_controller.dfy`: the session registry and the weekday helpers.

Every table class keeps the invariant `Valid()` (its keys stay increasing and
below the counter) across all of its methods. A method that changes a table
states the whole new table as a function of the old one. The properties the
models promise are then proved as lemmas about those functions.

The clock is a parameter: `now` (milliseconds since the epoch) for session
expiry, and `today` (the value of `Date.getDay()`, 0 = Sunday) for the
dashboard. The UUID generator is a parameter too: `CreateSession` receives
the token and requires it to be non-empty and not yet in use. The deletes of
users and categories receive the set of ids that other tables still refer to,
since the foreign keys make the database refuse to delete those rows.

Where the source code and its documentation comments disagree, the model
follows the code. Examples:

- `login` is documented to fail for unknown credentials, but it yields
  `undefined`;
- `findByUsername` is documented to throw a `userException`, but it returns a
  `databaseException`;
- `createUser` ignores its `icon` argument;
- `authenticateUser` is meant to drop expired sessions, but `isExpired`
  returns nothing, so the registry keeps and accepts every session at every
  time. The intended check is modelled beside it (`AuthenticateIntended`).

## Model

| member | source | states |
|---|---|---|
| JsStrings.ValidText | models/postItModel.js:579-602 | Only strings are accepted, and every string of length other than one is accepted. |
| JsStrings.ValidTextRejectsOnlyOneSpace | stick_it_content/models/userModel.js:424-477 | The text validators refuse exactly the string `" "` and every non-string; the empty string is accepted. |
| JsStrings.Lower | stick_it_content/controllers/authController.js:447 | `toLowerCase` keeps the length and lower-cases each character independently. |
| JsStrings.LowerIdempotent | stick_it_content/controllers/authController.js:447 | Lower-casing twice equals lower-casing once. |
| JsStrings.NatText | stick_it_content/models/categoryModel.js:414 | An id rendered into query text is a non-empty string of decimal digits. |
| JsStrings.NatTextInjective | stick_it_content/models/categoryModel.js:414 | Distinct ids render to distinct texts, so matching an id column against an id's text matches that id only. |
| UserModel.WithUsername | stick_it_content/models/userModel.js:219 | `WHERE username = ?`: a row is selected iff it is in the table and has that username. |
| UserModel.WithEmail | stick_it_content/models/userModel.js:178 | `WHERE email = ?`: a row is selected iff it is in the table and has that address. |
| UserModel.WithCredentials | stick_it_content/models/userModel.js:77 | A row is selected iff it has both the e-mail and the password. |
| UserModel.WithoutEmail | stick_it_content/models/userModel.js:390 | `DELETE ... WHERE email = ?`: a row survives iff its address differs. |
| UserModel.IconOrFallback | stick_it_content/models/userModel.js:332-334 | A valid icon is stored as given; any other icon becomes `images/default.jpg`. |
| UserModel.RewriteByEmail | stick_it_content/models/userModel.js:340 | Rows with the address get the new username, password and icon; ids and addresses are kept; other rows are unchanged. |
| UserModel.UpdateThenLogin | stick_it_content/models/userModel.js:323-372 | After a profile update of an existing address, logging in with that address and the new password finds a row. |
| UserModel.DeleteThenNoEmail | stick_it_content/models/userModel.js:380-417 | After deleting an address no row carries it. |
| UserModel.UserTable.HasUser | stick_it_content/models/userModel.js:250-283 | `findById` finds a row iff some row has that id. |
| UserModel.UserTable.Login | stick_it_content/models/userModel.js:61-100 | An invalid e-mail or password gives `authException`. Otherwise the result is the first row matching both fields, or nothing when none matches; it never gives `userException`. |
| UserModel.UserTable.FindByEmail | stick_it_content/models/userModel.js:168-201 | An invalid address gives `userException`. Otherwise it succeeds iff some row has the address, and returns exactly those rows. |
| UserModel.UserTable.FindByUsername | stick_it_content/models/userModel.js:209-242 | An invalid name gives `userException`; a missing name gives `databaseException`. Otherwise it returns the first row with the name. |
| UserModel.UserTable.CreateUser | stick_it_content/models/userModel.js:110-160 | Invalid fields, or a username or address already present, give `userException` and leave the table unchanged. Otherwise it appends exactly one row with the next id, which no earlier row carries, and the default icon, and returns the rows with that username. |
| UserModel.UserTable.UpdateUser | stick_it_content/models/userModel.js:323-372 | An invalid username or password, an unknown address, or a new username equal to a row's text form gives `userException` with the table unchanged. Otherwise the table becomes `RewriteByEmail` of the old one. |
| UserModel.UserTable.DeleteUser | stick_it_content/models/userModel.js:380-417 | An invalid address gives `userException`. A user still referenced by a category or post-it gives `databaseException` and the table is unchanged. Otherwise every row with the address is removed and the result is true. |
| ColorModel.PaletteWellFormed | stick_it_content/models/colorModel.js:10-19 | The palette has 8 entries, pairwise-distinct names, and pairwise-distinct codes of six upper-case hex digits. |
| ColorModel.DefaultRow | stick_it_content/models/colorModel.js:79-80 | The row inserted for a palette entry has no category. |
| ColorModel.DefaultRows | stick_it_content/models/colorModel.js:74-83 | After a reset the table has one row per palette entry, in palette order. |
| ColorModel.Available | stick_it_content/models/colorModel.js:112 | `WHERE category_id IS NULL`: a row is selected iff no category holds it. |
| ColorModel.WithCodeAndCategory | stick_it_content/models/colorModel.js:172 | A row is selected iff it has that code and that category. |
| ColorModel.AssignCode | stick_it_content/models/colorModel.js:166 | Rows with the code get the category; ids and codes are kept; other rows are unchanged. |
| ColorModel.Release | stick_it_content/models/colorModel.js:183 | Rows held by the category lose it; ids and codes are kept; other rows are unchanged. |
| ColorModel.DefaultRowsAllAvailable | stick_it_content/models/colorModel.js:62 | Right after a reset every palette colour is available. |
| ColorModel.ReleaseFrees | stick_it_content/models/colorModel.js:182-194 | After release no row carries the category, and every colour it held is available. |
| ColorModel.ReleaseUndoesAssign | stick_it_content/models/colorModel.js:165-194 | Assigning a free colour to a category that holds none, then releasing that category, restores the table. |
| ColorModel.AssignTakesColor | stick_it_content/models/colorModel.js:165-180 | After an assignment no available row has that code, and every row with the code is returned as held by the category. |
| ColorModel.ColorTable.SetColorTableToDefault | stick_it_content/models/colorModel.js:70-91 | With `reset` the table becomes the default rows; without it nothing changes. |
| ColorModel.ColorTable.Initialize | stick_it_content/models/colorModel.js:33-68 | Whatever `reset` says, the table becomes the default rows, all of them available, and the counter stands after the last of them. |
| ColorModel.ColorTable.GetAvailableColorNames | stick_it_content/models/colorModel.js:111-128 | It succeeds iff some colour is free, and returns exactly the free rows. Otherwise it gives `databaseException`. |
| ColorModel.ColorTable.AssignCategoryToColor | stick_it_content/models/colorModel.js:165-180 | When some row has the code and the category does not exist, the foreign key refuses the UPDATE: `databaseException`, table unchanged. Otherwise the table becomes `AssignCode` of the old one and the rows having both code and category are returned. |
| ColorModel.ColorTable.RemoveCategoryFromColor | stick_it_content/models/colorModel.js:182-194 | The table becomes `Release` of the old one. |
| CategoryModel.PaletteCodesLower | stick_it_content/models/categoryModel.js:449 | The palette codes, each lower-cased, in palette order. |
| CategoryModel.ValidColorCode | stick_it_content/models/categoryModel.js:448-454 | Corrected check: a code is accepted iff it is a string whose lower-cased form equals a lower-cased palette code. |
| CategoryModel.ValidColorCodeAcceptsPalette | stick_it_content/models/categoryModel.js:448-454 | Every palette code is accepted as written and in lower case. |
| CategoryModel.ColorNameIsNotCode | stick_it_content/models/categoryModel.js:448-454 | A colour name such as `Red` is not accepted as a code. |
| CategoryModel.CreateCategoryAsWritten | stick_it_content/models/categoryModel.js:72-79 | As written, `createCategory` never succeeds. An invalid title or description gives `categoryException`; otherwise the unbound `colors` throws a `ReferenceError`. |
| CategoryModel.PaletteCodeRefusedAsWritten | stick_it_content/models/categoryModel.js:75-79 | A palette code with a valid title and description passes the intended check but is refused as written. |
| CategoryModel.WithTitle | stick_it_content/models/categoryModel.js:179 | A row is selected iff it has that title. |
| CategoryModel.WithoutTitle | stick_it_content/models/categoryModel.js:374 | A row survives the delete iff its title differs. |
| CategoryModel.OfUser | stick_it_content/models/categoryModel.js:280 | A row is selected iff it belongs to the user. |
| CategoryModel.WithColor | stick_it_content/models/categoryModel.js:147 | A row is selected iff it has that colour code. |
| CategoryModel.WithoutIdText | stick_it_content/models/categoryModel.js:414 | A row survives the delete iff its id's text differs from the given text. |
| CategoryModel.IdsOf | stick_it_content/models/categoryModel.js:147-153 | The ids of the selected rows, position by position. |
| CategoryModel.DescribeByTitle | stick_it_content/models/categoryModel.js:336 | Rows with the title get the new description; other rows are unchanged. |
| CategoryModel.DescribeKeepsTitleCount | stick_it_content/models/categoryModel.js:310-356 | A description update keeps the number of rows with the title. |
| CategoryModel.DescribeThenFind | stick_it_content/models/categoryModel.js:310-356 | After a description update every row with the title has the new description, and rows with other titles are still present. |
| CategoryModel.DeleteThenNoTitle | stick_it_content/models/categoryModel.js:364-400 | After deleting a title no row carries it. |
| CategoryModel.DeleteByIdRemovesOnlyThatId | stick_it_content/models/categoryModel.js:403-440 | Deleting by the text of an id removes exactly the row with that id. |
| CategoryModel.CategoryTable.HasCategory | stick_it_content/models/categoryModel.js:209-239 | `findById` finds a row iff some row has that id. |
| CategoryModel.CategoryTable.CreateCategory | stick_it_content/models/categoryModel.js:72-128 | Corrected `createCategory`: invalid fields or a title already present give `categoryException` and leave the table unchanged; an unknown user gives `databaseException`. Otherwise it appends one row with the next id, which no earlier row carries, and returns the rows with that title. |
| CategoryModel.CategoryTable.CreateNewCategory | stick_it_content/models/categoryModel.js:130-140 | An unknown user violates the foreign key: `databaseException`, table and counter unchanged. Otherwise it appends one row without validation and returns the id that row received, which no earlier row carries. |
| CategoryModel.CategoryTable.GetCategoryIdByAssignedColor | stick_it_content/models/categoryModel.js:144-159 | An id is returned iff a category with that id has the colour code. |
| CategoryModel.CategoryTable.FindByTitle | stick_it_content/models/categoryModel.js:169-201 | An invalid title gives `categoryException`. Otherwise it succeeds iff some row has the title, and returns exactly those rows. |
| CategoryModel.CategoryTable.FindAllByUserId | stick_it_content/models/categoryModel.js:277-301 | It succeeds iff the user has a category, and returns exactly the user's categories; otherwise it gives `categoryException`. |
| CategoryModel.CategoryTable.UpdateCategory | stick_it_content/models/categoryModel.js:310-356 | An invalid description, an unknown title, or a description equal to a row's text form gives `categoryException` with the table unchanged. Otherwise the table becomes `DescribeByTitle` of the old one. |
| CategoryModel.CategoryTable.DeleteCategory | stick_it_content/models/categoryModel.js:364-400 | An invalid title gives `categoryException`. A category with the title still referenced by a post-it or colour row gives `databaseException` and the table is unchanged. Otherwise every row with the title is removed and the result is true. |
| CategoryModel.CategoryTable.DeleteCategoryById | stick_it_content/models/categoryModel.js:403-440 | A non-string id gives `categoryException`. A still-referenced category gives `databaseException` and the table is unchanged. Otherwise the row whose id reads as the text is removed and the result is true. |
| PostItModel.ValidWeekDay | models/postItModel.js:605-610 | A weekday is accepted iff it is one of the seven lower-case English day names. |
| PostItModel.ValidWeekDayIsCaseSensitive | models/postItModel.js:605-610 | `"monday"` is accepted; `"Monday"`, the empty string and non-strings are not. |
| PostItModel.WithTitle | models/postItModel.js:165 | A row is selected iff it has that title. |
| PostItModel.WithId | models/postItModel.js:204 | A row is selected iff it has that id. |
| PostItModel.WithoutTitle | models/postItModel.js:451 | A row survives the delete iff its title differs. |
| PostItModel.WithoutId | models/postItModel.js:491 | A row survives the delete iff its id differs. |
| PostItModel.OpenOnDay | models/postItModel.js:246 | A row is listed iff it has that day and user and is not completed. |
| PostItModel.OfUser | models/postItModel.js:309 | A row is selected iff it belongs to the user. |
| PostItModel.CompletedOfUser | models/postItModel.js:341 | A row is selected iff it belongs to the user and is completed. |
| PostItModel.MarkCompleted | models/postItModel.js:538 | Only the row with the id gets `completed = 'T'`; every other row is unchanged. |
| PostItModel.Rewritten | models/postItModel.js:404-409 | The rewrite keeps a post-it's id, owner, title and completion. |
| PostItModel.RewriteByTitle | models/postItModel.js:404-410 | Rows with the title are rewritten, with ids and titles kept; other rows are unchanged. |
| PostItModel.MarkCompletedIdempotent | models/postItModel.js:520-559 | Completing a post-it twice equals completing it once. |
| PostItModel.CompletedLeavesDashboard | models/postItModel.js:538-550 | After completion the post-it is among its owner's completed post-its, and no day's open listing shows its id. |
| PostItModel.DeleteThenNoTitle | models/postItModel.js:441-478 | After deleting a title no row carries it. |
| PostItModel.DeleteThenNoId | models/postItModel.js:487-518 | After deleting an id no row carries it. |
| PostItModel.DeleteByIdMisreports | models/postItModel.js:491-505 | After post-it 2 is deleted no row has id 2, yet the confirmation query (title = `'2'`) still finds a row. |
| PostItModel.PostItTable.CreatePostIt | models/postItModel.js:78-147 | Invalid fields or a title already present give `postItException`; an unknown user or category gives `databaseException`; in both cases the table is unchanged. Otherwise one row with the next id, which no earlier row carries, and `completed = 'F'` is appended, and the rows with that title are returned. |
| PostItModel.PostItTable.FindByTitle | models/postItModel.js:155-187 | An invalid title gives `postItException`. Otherwise it succeeds iff some row has the title, and returns exactly those rows. |
| PostItModel.PostItTable.FindById | models/postItModel.js:195-226 | It succeeds iff some row has the id, and returns exactly those rows, which are one row since the id is the primary key; otherwise it gives `postItException`. |
| PostItModel.PostItTable.FindByWeekdayAndUserId | models/postItModel.js:236-266 | An invalid weekday gives `postItException`. Otherwise it returns the user's open post-its for the day, which may be none. |
| PostItModel.PostItTable.FindAllByUserId | models/postItModel.js:306-331 | It succeeds iff the user has a post-it, and returns exactly the user's post-its; otherwise it gives `postItException`. |
| PostItModel.PostItTable.FindAllCompletedPostIt | models/postItModel.js:338-363 | It succeeds iff the user has a completed post-it, and returns exactly those; otherwise it gives `postItException`. |
| PostItModel.PostItTable.UpdatePostIt | models/postItModel.js:373-433 | An invalid description gives `postItException`; an unknown category or title gives `databaseException`; in both cases the table is unchanged. Otherwise the table becomes `RewriteByTitle` of the old one, and the rewritten first row with the title is returned. |
| PostItModel.PostItTable.SetPostItAsCompleted | models/postItModel.js:520-559 | The table becomes `MarkCompleted` of the old one, and the rows with the id, at most one, are returned. |
| PostItModel.PostItTable.DeletePostIt | models/postItModel.js:441-478 | An invalid title gives `postItException`. Otherwise every row with the title is removed and the result is true. |
| PostItModel.IdIdentifiesRow | models/postItModel.js:49 | `post_id` is the primary key: on a table with increasing ids at most one row has a given id. |
| PostItModel.DeleteByIdRemovesAtMostOne | models/postItModel.js:491 | Deleting by id removes at most one row. |
| PostItModel.PostItTable.DeletePostItById | models/postItModel.js:487-518 | As written: the row with the id, at most one, is removed, and the result is whether no row is titled with the id's text. |
| PostItModel.PostItTable.DeletePostItByIdChecked | models/postItModel.js:487-518 | Corrected: the row with the id, at most one, is removed, and the confirmation by id always succeeds. |
| AuthController.NewSession | stick_it_content/controllers/authController.js:84-97 | A new session holds the username and the fixed expiry `2147483647 * 1000`. |
| AuthController.IsExpiredAsWritten | stick_it_content/controllers/authController.js:74-76 | As written, `isExpired` never reports expiry. |
| AuthController.SessionIdOf | stick_it_content/controllers/authController.js:107-117 | A token is read iff the request has cookies with a non-empty `sessionId`. |
| AuthController.RequestWith | stick_it_content/controllers/authController.js:112 | A request whose `sessionId` cookie is a non-empty token presents that token. |
| AuthController.Authenticate | stick_it_content/controllers/authController.js:104-133 | As written: a session is returned iff the presented token is non-empty and registered, at any time; it is that token with its stored session. |
| AuthController.AfterAuthenticate | stick_it_content/controllers/authController.js:126-129 | As written: the deletion of an expired session is never reached, so the registry is unchanged. |
| AuthController.AfterLogout | stick_it_content/controllers/authController.js:210-238 | An authenticated logout removes exactly its token. An unauthenticated one changes only what `authenticateUser` did. No session is added or altered. |
| AuthController.CreateThenAuthenticate | stick_it_content/controllers/authController.js:84-133 | A freshly created token authenticates with its new session, at every time. |
| AuthController.LogoutRevokes | stick_it_content/controllers/authController.js:219 | After logout the token no longer authenticates, at any later time. |
| AuthController.CreateThenLogoutRestores | stick_it_content/controllers/authController.js:84-238 | Creating a session under a fresh token and logging out with it restores the registry, at every time. |
| AuthController.ExpiredSessionRejected | stick_it_content/controllers/authController.js:126-129 | With a working expiry check, a token past its expiry is refused and exactly its session is dropped. |
| AuthController.RegisteredAlwaysAuthenticates | stick_it_content/controllers/authController.js:104-133 | As written, a registered token authenticates with its stored session at every time, and authentication leaves the registry unchanged. |
| AuthController.ExpiredSessionKeptAsWritten | stick_it_content/controllers/authController.js:74-76 | As written, a session whose expiry lies in the past is expired, yet it is accepted and kept. |
| AuthController.AuthenticateIntended | stick_it_content/controllers/authController.js:104-133 | The intended answer: a session is returned iff the token is registered and its expiry is not past; whenever it answers, it agrees with the written one. |
| AuthController.AfterAuthenticateIntended | stick_it_content/controllers/authController.js:126-129 | The intended registry: only the presented token's session can disappear, and a successful authentication changes nothing. |
| AuthController.IntendedAgreesBeforeFarFuture | stick_it_content/controllers/authController.js:89 | While every session carries the fixed expiry and the time is not past it, the intended and the written checks give the same answer and the same registry. |
| AuthController.SessionRegistry.CreateSession | stick_it_content/controllers/authController.js:84-97 | It adds exactly one entry, under the fresh token, holding the username with the fixed expiry; other entries are unchanged; it returns the token. |
| AuthController.SessionRegistry.AuthenticateUser | stick_it_content/controllers/authController.js:104-133 | As written: its result is `Authenticate` of the old registry, so a registered token is accepted at every time, and the registry is unchanged (`AfterAuthenticate`). |
| AuthController.SessionRegistry.Logout | stick_it_content/controllers/authController.js:210-238 | It redirects home iff the request authenticates (otherwise it answers 401), and the new registry is `AfterLogout` of the old one. |
| AuthController.WeekdaysLowered | stick_it_content/controllers/authController.js:22 | Lower-casing the controller's day table gives the seven names the weekday validator accepts, in the same order. |
| AuthController.DayOfWeek | stick_it_content/controllers/authController.js:435-439 | Today's name comes from the table, and lower-cased it is the validator's name for that index. |
| AuthController.SetDashboardToCurrentDay | stick_it_content/controllers/authController.js:446-452 | True iff the lower-cased day equals the lower-cased name of today. |
| AuthController.DashboardShowsOnlyToday | stick_it_content/controllers/authController.js:22 | Of the seven table entries exactly today's is shown. |
| AuthController.WeekdayNamesDistinct | models/postItModel.js:606 | The seven day names are pairwise distinct. |
| AuthController.DashboardIgnoresCase | stick_it_content/controllers/authController.js:447 | The comparison gives the same answer for a day and its lower-cased form. |
| AuthController.WeekdayNamesAreValid | stick_it_content/controllers/authController.js:459-460 | Every entry of the capitalised table, lower-cased, passes `validateWeekDay`. |
| AuthController.BuildDashboard | stick_it_content/controllers/authController.js:454-477 | The day is lower-cased before the lookup. A day from the table always yields the user's open post-its for it. |

## Left out

- SQL text, quoting and injection: the tables are sequences of rows and each query is an equality filter.
- Connection set-up, table creation, `DROP TABLE`, credentials, and connection failures: a failing query is not modelled. The outcome `databaseException` stands for the paths where the source ends in its catch-all handler.
- Logging, and the un-awaited `forEach(async ...)` inserts of the colour reset: the model is sequential and keeps the resulting rows.
- Thrown versus returned errors: both are a `Result` error. Whether a caller sees a rejected promise or a returned exception object is not distinguished.
- Type-error paths: reading a property of an exception object or of `undefined` is mapped to `databaseException`. This covers `retrievedUser[0].length` in `createPostIt`, `categoryObj[0][0]` in `updatePostIt`, and `retrievedPostIt[0][0]` when no post-it has the title.
- MySQL's conversion of quoted id text to numbers: an id compared with text matches only the id's canonical decimal text, so text such as `"02"` matches nothing.
- `toLowerCase` is modelled on ASCII letters only; other characters are left unchanged.
- Request values that are numbers, objects or missing are all `NonText`.
- Loose `!=` between a row object and a string is modelled only through the row object's text form `[object Object]`.
- Session expiry is held as milliseconds. The source stores `toUTCString()` text; as written the expiry is never consulted, so the representation only matters for the intended check.
- Text comparisons in `WHERE` clauses are exact equality. MySQL's default collations compare case-insensitively, so the database would also match `"Work"` against `"work"`; the model does not, and its duplicate-title and duplicate-address refusals are correspondingly narrower.
- Foreign keys are not derived from the other tables. `DeleteUser`, `DeleteCategory` and `DeleteCategoryById` take the set of ids still referenced (by `category.user_id` and `post_it.user_id`, or by `post_it.category_id` and `color.category_id`) as a parameter, and `AssignCategoryToColor` takes the set of existing category ids; `CreateNewCategory`, `CreateCategory` and `CreatePostIt` consult the user and category tables directly. In `categoryModel.js` the delete handlers construct `user.databaseException`, which the user model does not export, and `createNewCategory` builds its exception from the caught error object, so those failures surface as type errors; they are modelled as `databaseException`.
- Column widths: `username VARCHAR(30)`, `title`, `description`, `email` and `color_code` up to `VARCHAR(50)`, `pinned VARCHAR(3)`, `day_of_week VARCHAR(11)` and the like are not enforced. Under MySQL's default strict mode an over-long value makes the INSERT or UPDATE fail into the catch-all handler; the model stores it. This matters most for `updatePostIt`, whose weekday and pinned flag are never validated.
- Registry keys that name properties inherited by a plain JavaScript object (`constructor`, `toString`, ...) are treated like any other unknown token.
- The HTTP side of `logout`: erasing the cookie, the redirect and the status are reduced to `LogoutReply`.
- The rest of `login` in the controller, page rendering, and all routes.
- Several functions return the driver's full query result in the source (the rows plus field metadata); the model returns the rows. These are `createPostIt`, `findByTitle` (post-its and categories), `setPostItAsCompleted`, `createUser`, `findByEmail`, `updateUser`, `createCategory`, `updateCategory`, `getAvailableColorNames` and `assignCategoryToColor`. `createNewCategory` returns the INSERT's result header, of which the model keeps the new id; `updatePostIt` returns a single row, as the model does.
- `createPostIt`, `createCategory` and `createUser`: the re-select after the insert always finds the inserted row in this sequential model, so the "not added" branches are not modelled.
- `updatePostIt`: the `affectedRows > 0` test cannot fail once the title was found, so its `postItException` branch is not modelled.
- `findAll` in each model, `getAllColorNames`, `getColorByAssignedCategory` and `resetColorTable`: no stated behaviour beyond a full-table read or a reset already modelled by `SetColorTableToDefault`.
- `userModel.findById` and `categoryModel.findById` are modelled only as existence tests (`HasUser`, `HasCategory`), since the other models use them only that way.
- The controllers other than the session registry and the weekday helpers.
- The pinned `"on"` to `'T'`/`'F'` mapping of the post-it controller: `pinned` is passed through as text.

## Findings

| source | as written | input that shows it | evidently intended | confidence | as-written member | corrected member |
|---|---|---|---|---|---|---|
| stick_it_content/controllers/authController.js:74-76 | `isExpired` computes `expiresAt < new Date()` but does not return it, so it yields `undefined`, `authenticateUser` never deletes a session, and every registered token authenticates forever (the stored expiry is also a date string, which compares with a `Date` as `NaN`). | any registered session whose expiry lies before the current time, e.g. expiry `2147483647 * 1000` at time `2147483647 * 1000 + 1` | a session expires once its expiry lies in the past and is then dropped | high; not executed | AuthController.ExpiredSessionKeptAsWritten | AuthController.ExpiredSessionRejected |
| stick_it_content/models/categoryModel.js:448-454 | `validateColorCode` reads a `colors` list that the file never declares or imports, so every `createCategory` with a valid title and description throws a `ReferenceError`. | title `"Work"`, description `""`, colour code `"FE0000"` | accept a code that is one of the palette's codes, ignoring case | high; not executed | CategoryModel.PaletteCodeRefusedAsWritten | CategoryModel.CategoryTable.CreateCategory |
| models/postItModel.js:491-505 | `deletePostItById` confirms the deletion with `WHERE title = '<id>'` instead of `WHERE post_id`, so it reports failure whenever some post-it is titled with the id's digits. | post-its `{id 1, title "2"}` and `{id 2, title "groceries"}`, delete id 2 | confirm by id, which always succeeds after the delete | high; not executed | PostItModel.DeleteByIdMisreports | PostItModel.PostItTable.DeletePostItByIdChecked |
