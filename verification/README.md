# Workout tracker — a Dafny model

This project models the core of a small workout-tracking web application. The
server is an Express API over MongoDB:
- a workout schema with its validation method and pre-save hook;
- REST handlers that list, create, update and delete a user's workouts;
- signup and login handlers that hash passwords and issue JSON Web Tokens;
- a bearer-token middleware;
- a middleware that refuses requests when the required configuration is missing.

The client is a React application:
- a session context that keeps the token and the user in local storage;
- the route table with its guarded routes;
- the sign-in screen with its form validation;
- the "My Workouts" screen;
- the dashboard's create and edit dialog.

Everything is modelled as pure functions over immutable datatypes:
- The database is a sequence of documents.
- A React component is a state record, and each event handler maps it to the next state.
- An asynchronous request is replaced by its answer, which the caller passes in.
- Hashing, comparing, signing and verifying are function-valued parameters. Clocks, generated ids and salts are ordinary parameters.

Shared modules:
- `Wrappers`: `Option`, `Result` and `Outcome`.
- `Seqs`: an order-preserving filter with its laws.
- `Text`: JavaScript white space, `trim`, ASCII lower-casing, `indexOf`/`includes`, `replace` with a string pattern, `join`, `Number.prototype.toString` and `parseInt` for integers.
- `Forms`: the form record both workout screens edit.

The model follows the code as written, including these behaviours:
- The token payload nests the id under `user`, but the workout handlers read a top-level `id` (`AuthGuard.IssuedTokenHasNoActingId`).
- On the "My Workouts" screen, typing an exercise name changes the workout name. So the Create button never becomes enabled (`WorkoutsPage.CreateNeverEnabled`).
- A weight of 0 is stored as `null` (`WorkoutRoutes.ZeroWeightStoredAsNull`).
- Start-up validates a stored session with a route the server does not define, so a reload signs the user out (`AuthContext.ReloadLosesSession`).
- `ProtectedRoute`'s loading view can never appear (`AppRoutes.LoadingViewUnreachable`).
- Signup answers 200 with the session, not 201.

## Model

| member | source | states |
|---|---|---|
| WorkoutModel.CastExercise | backend/models/Workout.js:4-8 | An exercise name is present after casting exactly when it was supplied, and is then the supplied name trimmed, so free of surrounding white space; sets, reps and weight are untouched |
| WorkoutModel.NewWorkout | backend/models/Workout.js:32-36 | A built document carries the given id, owner and timestamp, the given workout name trimmed (so without surrounding white space, and verbatim when already tight), and every exercise cast, in order |
| WorkoutModel.NewWorkoutTrimsNames | backend/models/Workout.js:32-36 | Every name in a built document, workout and exercise alike, is stored without surrounding white space |
| WorkoutModel.ExerciseSchemaErrors | backend/models/Workout.js:3-24 | Schema validation reports nothing for an exercise exactly when it meets every field rule, and reports each rule's message exactly when that rule is broken: falsy name, sets missing, sets below 1, reps missing, reps below 1, negative weight |
| WorkoutModel.AllExerciseErrors | backend/models/Workout.js:37-38 | The exercise list yields no message exactly when every exercise in it satisfies the sub-schema |
| WorkoutModel.SchemaErrorsIffInvalid | backend/models/Workout.js:26-46 | A document draws no validation message exactly when it is schema-valid, and draws "At least one exercise is required" exactly when its list is empty |
| WorkoutModel.ValidateExercise | backend/models/Workout.js:55-65 | The method throws its missing-fields message exactly when a name, sets or reps is falsy; "Sets and reps must be at least 1" exactly when those are present but one is below 1; the negative-weight message exactly when only the weight is wrong; otherwise it passes |
| WorkoutModel.ValidateAll | backend/models/Workout.js:73 | The loop over the exercises passes exactly when every exercise passes |
| WorkoutModel.ValidateAllReportsFirstFailure | backend/models/Workout.js:73 | A failing loop reports the message of one of the list's own exercises |
| WorkoutModel.PreSave | backend/models/Workout.js:68-78 | The hook accepts exactly a non-empty list whose every exercise passes, and refuses an empty list with "At least one exercise is required" |
| WorkoutModel.Save | backend/models/Workout.js:26-78 | Saving succeeds exactly for a schema-valid document and stores that document unchanged |
| WorkoutModel.SchemaPassesPreSave | backend/models/Workout.js:55-78 | Every schema-valid document also passes the pre-save hook, so the hook never decides a save |
| WorkoutModel.PreSaveWeakerThanSchema | backend/models/Workout.js:68-78 | Some document passes the hook yet fails schema validation: the hook does not look at the workout name |
| WorkoutRoutes.SortNewestFirst | backend/routes/workouts.js:10 | Sorting gives a permutation of its input ordered by creation time, newest first |
| WorkoutRoutes.List | backend/routes/workouts.js:7-17 | GET answers 200 with exactly the acting user's workouts, each as often as stored, newest first |
| WorkoutRoutes.FromRequest | backend/routes/workouts.js:40-45 | One requested exercise is copied with its name, sets and reps as sent; its weight is kept when truthy and becomes null when absent or 0 |
| WorkoutRoutes.FromRequestAll | backend/routes/workouts.js:40-45 | The route copies the requested exercises one for one, in order: each copy has the request's name, sets and reps, and its weight exactly when that weight is truthy, else null |
| WorkoutRoutes.AcceptableIffSchemaValid | backend/routes/workouts.js:40-45 | A requested exercise passes the sub-schema after copying and trimming exactly when its name has a non-space character, its sets and reps are at least 1 and its weight is not negative |
| WorkoutRoutes.NewWorkoutValidIff | backend/routes/workouts.js:37-46 | The document POST builds is schema-valid exactly when the name is not all white space, the list is non-empty and every exercise is acceptable |
| WorkoutRoutes.Create | backend/routes/workouts.js:20-59 | POST refuses a falsy name, then a missing or empty list, with 400 and the store unchanged. It answers 201 exactly when the trimmed document validates; the 201 appends that document, which carries the trimmed name and copies every exercise. Once the name and list checks pass, any answer other than 201 is a 500, which carries the error text in development only |
| WorkoutRoutes.SaveNew | backend/routes/workouts.js:37-58 | Once the request checks pass, the copied document is appended and returned with 201 exactly when it validates; otherwise the reply is 500 "Error creating workout" and the store is unchanged |
| WorkoutRoutes.CreatedContent | backend/routes/workouts.js:37-46 | The built document holds the request's name trimmed and each exercise's fields as sent, except that a falsy weight becomes null |
| WorkoutRoutes.FindOwned | backend/routes/workouts.js:79-80 | The lookup finds the first workout with that id owned by the acting user, and finds none exactly when no such workout exists |
| WorkoutRoutes.Update | backend/routes/workouts.js:62-106 | PUT runs the same two checks as POST, then answers 404 unless the acting user owns a workout with that id. A 200 replaces exactly that record: same id, owner and creation time, the trimmed name and the copied exercises, with no validation |
| WorkoutRoutes.Delete | backend/routes/workouts.js:109-127 | DELETE succeeds exactly when the acting user owns a workout with that id and then removes exactly that one record, keeping the rest in order; otherwise it answers 404 with the store unchanged |
| WorkoutRoutes.ZeroWeightStoredAsNull | backend/routes/workouts.js:44 | A requested weight of 0 is copied as null |
| WorkoutRoutes.CreateThenList | backend/routes/workouts.js:7-59 | After a successful POST, the owner's listing contains the created workout |
| WorkoutRoutes.OthersUnaffected | backend/routes/workouts.js:20-127 | No create, update or delete on behalf of one user changes the workouts, or the listing, of any other user |
| WorkoutRoutes.CreateLeavesOthers | backend/routes/workouts.js:37-51 | A POST leaves every other user's workouts as they were |
| WorkoutRoutes.UpdateLeavesOthers | backend/routes/workouts.js:79-91 | A PUT leaves every other user's workouts as they were |
| WorkoutRoutes.DeleteLeavesOthers | backend/routes/workouts.js:112 | A DELETE leaves every other user's workouts as they were |
| WorkoutRoutes.CreateThenDeleteRestores | backend/routes/workouts.js:109-119 | Deleting the id just created, when it was new for that user, restores the store that existed before the POST |
| WorkoutRoutes.DeleteAppended | backend/routes/workouts.js:112-119 | Deleting the id of a workout appended for its owner, with no earlier owned record of that id, removes exactly that workout |
| AuthRoutes.FindByEmail | backend/routes/auth.js:20 | The lookup finds the first user with that email, and finds none exactly when no user has it |
| AuthRoutes.Signup | backend/routes/auth.js:8-70 | Signup refuses any falsy field with 400, and a registered email with 400 "User already exists", both without a change. For a fresh email with all fields truthy it always stores the user with the hashed password, and answers 200 exactly when signing succeeds, with the token and the password-free profile; a signing failure answers 500 "Error creating token" with the user kept |
| AuthRoutes.Login | backend/routes/auth.js:73-134 | Login refuses a falsy field with 400; an unknown email gives "Invalid credentials". For a known email it answers 200 exactly when the password compares equal to the stored hash and signing succeeds, with a token signed for that user and the user's profile; a failed compare gives "Invalid credentials" and a failed signing the token error; no other reply occurs |
| AuthRoutes.UnknownEmailLooksLikeWrongPassword | backend/routes/auth.js:88-101 | An unknown email and a wrong password for a known email get the identical reply, so a caller cannot tell which accounts exist |
| AuthRoutes.SignupThenLogin | backend/routes/auth.js:85-127 | When the hash accepts its own password and signing works, a login right after a signup with the same credentials succeeds and returns exactly the signup's reply |
| AuthRoutes.DuplicateSignupKeepsLogin | backend/routes/auth.js:20-23 | A signup with a registered email is refused and leaves every later login for that email answering as before |
| AuthGuard.ExtractToken | backend/middleware/auth.js:6 | The token is absent exactly when the header is, a header without "Bearer " is taken whole, and otherwise only the first "Bearer " is removed |
| AuthGuard.ExtractBearer | backend/middleware/auth.js:6 | A header "Bearer " followed by a token gives back exactly that token |
| AuthGuard.Guard | backend/middleware/auth.js:3-29 | The middleware answers "no token" exactly when the extracted token is missing or empty, "token is not valid" exactly when verification fails, and otherwise passes the request on with the decoded payload as its user |
| AuthGuard.SchemeAloneIsNoToken | backend/middleware/auth.js:6-11 | A header holding only "Bearer " is treated as a missing token |
| AuthGuard.IssuedTokenHasNoActingId | backend/middleware/auth.js:14-21 | A token as signup and login issue it passes the guard, but the id the workout handlers read from it is undefined, because the payload nests the id under `user` |
| CheckEnv.Missing | backend/middleware/checkEnv.js:3 | A variable is reported missing exactly when it is required and not set to a non-empty value |
| CheckEnv.MissingInOrder | backend/middleware/checkEnv.js:2-3 | The missing names come out in declaration order: JWT_SECRET before MONGODB_URI |
| CheckEnv.Check | backend/middleware/checkEnv.js:1-14 | The gate passes a request exactly when both variables are set. Otherwise it answers 500 "Server configuration error", with the list of missing names only in development mode |
| CheckEnv.DevelopmentDetail | backend/middleware/checkEnv.js:9 | In development mode the detail names exactly the unset variables, comma separated, for each of the three cases |
| Seqs.Filter | backend/middleware/checkEnv.js:3 | A filter keeps exactly the elements satisfying the test, each as often as it occurs, in their original order |
| Text.Trim | backend/models/Workout.js:7 | Trimming removes exactly the leading and trailing JavaScript white space, leaves a tight string alone, and yields "" exactly for an all-white-space string |
| Text.IncludesIffContains | frontend/src/components/Workouts.jsx:131 | `includes` answers true exactly when the pattern occurs somewhere in the string |
| Text.ReplaceFirst | backend/middleware/auth.js:6 | `replace` with a string pattern rewrites only the leftmost occurrence and leaves a string without the pattern unchanged |
| Text.ParseIntToString | frontend/src/components/Dashboard.jsx:103 | `parseInt` reads back exactly the integer that `toString` wrote |
| Text.ParseInt | frontend/src/components/Dashboard.jsx:103-104 | A string with no decimal digit reads as NaN, and a number comes out only when the first character after the leading white space is a digit or a sign |
| Text.ParseIntSkipsSpace | frontend/src/components/Dashboard.jsx:103-104 | Leading JavaScript white space does not change what `parseInt` reads |
| Text.ParseIntPlus | frontend/src/components/Dashboard.jsx:103-104 | A leading `+` is skipped, unless white space or a second sign follows it |
| Text.ParseIntMinus | frontend/src/components/Dashboard.jsx:103-104 | A leading `-` negates the number that follows, and NaN stays NaN, unless white space or a second sign follows it |
| Text.ParseIntSignThenNonDigit | frontend/src/components/Dashboard.jsx:103-104 | A sign followed by white space or by a second sign reads as NaN |
| Text.ParseIntHex | frontend/src/components/Dashboard.jsx:103-104 | After `0x` or `0X` the longest run of hexadecimal digits is read in base 16, and an empty run reads as NaN |
| Text.ParseIntStopsAtNonDigit | frontend/src/components/Dashboard.jsx:103-104 | Decimal digits are read up to the first character that is not one, so trailing text is ignored; only a lone `0` before `x` or `X` reads as hexadecimal instead |
| Forms.Put | frontend/src/components/Dashboard.jsx:76 | Spreading a row with one field replaced changes exactly that field |
| Forms.AddExercise | frontend/src/components/Workouts.jsx:83-88 | Adding a row appends one blank row and keeps the name and every earlier row |
| Forms.RemoveExercise | frontend/src/components/Workouts.jsx:90-95 | Removing row i drops exactly that row and keeps the others in order; an index outside the list changes nothing |
| Forms.ChangeExercise | frontend/src/components/Dashboard.jsx:72-79 | Editing one field of one row changes exactly that field of that row |
| Forms.AddThenRemove | frontend/src/components/Dashboard.jsx:81-91 | Adding a row and removing it again gives back the original form |
| Forms.ErrorText | frontend/src/components/Workouts.jsx:66 | The error line shows the server's message when it is a non-empty string, and the fallback otherwise |
| WorkoutsPage.Fetch | frontend/src/components/Workouts.jsx:58-70 | Fetching replaces the list with the server's answer and clears the error, or keeps the list and shows the server's message or "Error fetching workouts"; loading ends either way |
| WorkoutsPage.HandleInputChange | frontend/src/components/Workouts.jsx:72-81 | Any box named "name" sets the workout name whatever its row; any other box changes exactly its field of its row |
| WorkoutsPage.ExerciseNameEditHitsWorkoutName | frontend/src/components/Workouts.jsx:298-306 | Typing in a row's exercise-name box changes the workout name and leaves every exercise row unchanged |
| WorkoutsPage.ApplyKeepsRowsUnnamed | frontend/src/components/Workouts.jsx:72-95 | No action the screen offers gives an exercise row a name or leaves the form without rows |
| WorkoutsPage.ApplyAllKeepsRowsUnnamed | frontend/src/components/Workouts.jsx:72-95 | No sequence of offered actions gives an exercise row a name |
| WorkoutsPage.SubmitEnabledIff | frontend/src/components/Workouts.jsx:361 | The Create button is enabled exactly when the workout name is not empty and every row has a name, sets and reps; the weight plays no part |
| WorkoutsPage.AddRowDisablesSubmit | frontend/src/components/Workouts.jsx:83-88 | Adding a row disables the Create button, since the new row is blank |
| WorkoutsPage.ClearingBoxDisablesSubmit | frontend/src/components/Workouts.jsx:72-81 | Emptying the workout-name box, or a row's sets or reps box, disables the Create button |
| WorkoutsPage.RemoveRowKeepsSubmitEnabled | frontend/src/components/Workouts.jsx:90-95 | Removing a row never disables an enabled Create button |
| WorkoutsPage.CreateNeverEnabled | frontend/src/components/Workouts.jsx:361 | From the blank form, whatever the user does, the Create button stays disabled |
| WorkoutsPage.HandleSubmit | frontend/src/components/Workouts.jsx:97-113 | A created workout goes to the front of the list and the form resets and closes; a failure shows the server's message or "Error creating workout" and changes nothing else |
| WorkoutsPage.HandleDelete | frontend/src/components/Workouts.jsx:115-127 | Without confirmation nothing changes. After a confirmed delete, exactly the workouts with other ids remain, in order; a failure shows the server's message or "Error deleting workout" |
| WorkoutsPage.LocalCreateMatchesServer | frontend/src/components/Workouts.jsx:103 | After a successful create, the screen's list holds the same workouts, each as often, as the server now lists for that user |
| WorkoutsPage.LocalDeleteMatchesServer | frontend/src/components/Workouts.jsx:122 | When ids are distinct, the screen's list after a delete holds exactly the workouts the server still lists for that user |
| WorkoutsPage.AnyExerciseMatches | frontend/src/components/Workouts.jsx:131-133 | The exercise test holds exactly when some exercise's lower-cased name contains the lower-cased query |
| WorkoutsPage.MatchesIffMentions | frontend/src/components/Workouts.jsx:129-134 | A workout passes the search exactly when its name, or one of its exercise names, contains the query, both lower-cased |
| WorkoutsPage.Filtered | frontend/src/components/Workouts.jsx:129-134 | The search keeps exactly the listed workouts that mention the query, each as often as listed, in list order |
| WorkoutsPage.EmptyQueryKeepsAll | frontend/src/components/Workouts.jsx:129-134 | An empty search box shows the whole list |
| Dashboard.HandleOpen | frontend/src/components/Dashboard.jsx:58-65 | Opening the dialog shows a create form with no name and one blank row |
| Dashboard.HandleClose | frontend/src/components/Dashboard.jsx:67-70 | Closing hides the dialog and clears the error, keeping the form and the edited workout |
| Dashboard.SetName | frontend/src/components/Dashboard.jsx:279 | The name box changes the workout name and nothing else |
| Dashboard.HandleExerciseChange | frontend/src/components/Dashboard.jsx:72-79 | A row's box changes exactly its field of its row |
| Dashboard.ToPayloadExercise | frontend/src/components/Dashboard.jsx:101-106 | A row is sent with its name as typed, its sets and reps as `parseInt` reads their boxes, and a weight exactly when the weight box is not empty |
| Dashboard.ToPayload | frontend/src/components/Dashboard.jsx:99-107 | The request body carries the name as typed and every row converted, in order |
| Dashboard.SubmitRequest | frontend/src/components/Dashboard.jsx:109-113 | Saving sends a PUT to the edited workout's path exactly when a workout is being edited, and a POST to the collection otherwise |
| Dashboard.HandleSubmit | frontend/src/components/Dashboard.jsx:93-123 | Success closes the dialog and clears the error; failure keeps it open with the server's message or "Failed to save workout"; loading ends either way |
| Dashboard.EditRow | frontend/src/components/Dashboard.jsx:129-134 | An edited row shows the exercise's name, its sets and reps as their decimal text, and a weight box that is empty exactly when the weight is 0 or missing and otherwise holds the weight's decimal text |
| Dashboard.EditForm | frontend/src/components/Dashboard.jsx:127-135 | The edit form holds the workout's name and one row per exercise, in order |
| Dashboard.HandleEdit | frontend/src/components/Dashboard.jsx:125-137 | Editing opens the dialog on the workout's own values with that workout marked as edited |
| Dashboard.EditThenSubmitRoundTrip | frontend/src/components/Dashboard.jsx:93-137 | Opening a workout for editing and saving it unchanged sends a PUT to that workout that carries its name and, row by row, the same names, sets and reps; a weight of 0 or none is not sent |
| Dashboard.OpenThenSubmitPosts | frontend/src/components/Dashboard.jsx:109-113 | Saving a freshly opened dialog posts to the collection |
| Dashboard.PerformKeepsFirstRow | frontend/src/components/Dashboard.jsx:296-304 | No offered action removes the first row, and only typing in it changes it |
| Dashboard.FirstRowSurvives | frontend/src/components/Dashboard.jsx:296-304 | Any sequence of actions leaves at least one row, and a sequence that never types in the first row leaves it as it was |
| LoginPage.HandleChange | frontend/src/components/Login.jsx:25-31 | Typing sets the named field to the value with surrounding white space removed and leaves the other field alone |
| LoginPage.EmailPatternIffMatchAt | frontend/src/components/Login.jsx:42 | The email pattern matches exactly when there is an "@" preceded by a non-space character, followed by a run of non-space characters, a "." and a non-space character |
| LoginPage.ScanCorrect | frontend/src/components/Login.jsx:42 | One left-to-right pass finds a match exactly when the pattern has one |
| LoginPage.EmailLooksValidIffPattern | frontend/src/components/Login.jsx:42-45 | The executable email test agrees with the regular expression on every string |
| LoginPage.ValidateForm | frontend/src/components/Login.jsx:33-47 | The first failing check decides the message: an empty email, then an empty password, then an email the pattern rejects; a form that passes all three gets no message |
| LoginPage.HandleSubmit | frontend/src/components/Login.jsx:49-76 | A request is sent exactly when the form validates. The user is signed in and the screen navigates exactly when the reply carries a token and a user; a refusal shows the server's message or the fallback |
| LoginPage.SubmitAcceptedLogin | frontend/src/components/Login.jsx:61-66 | Submitting credentials that the server's login accepts signs in the user with the profile the server returned |
| AuthContext.Initialize | frontend/src/context/AuthContext.jsx:12-36 | Start-up always ends; it asks the server only when both keys are stored, signs in the confirmed user, and on failure removes both keys |
| AuthContext.ReloadLosesSession | frontend/src/context/AuthContext.jsx:20 | The confirmation route is not defined on the server, so after a reload nobody is signed in and stored keys are removed |
| AuthContext.Login | frontend/src/context/AuthContext.jsx:41-58 | A login with user data stores the token and the serialised user and signs that user in; without user data it fails with the error recorded |
| AuthContext.LoginFailed | frontend/src/context/AuthContext.jsx:53-56 | A failed login records the error and changes nothing else |
| AuthContext.Logout | frontend/src/context/AuthContext.jsx:60-67 | Logging out removes both keys, signs the user out and clears the error |
| AuthContext.LogoutIdempotent | frontend/src/context/AuthContext.jsx:60-67 | Logging out twice is the same as logging out once |
| AuthContext.LoginThenLogout | frontend/src/context/AuthContext.jsx:41-67 | Logging in and then out leaves the same session as logging out alone |
| AuthContext.LoginStoresValidatableSession | frontend/src/context/AuthContext.jsx:45-46 | After a successful login, a reload asks the server to confirm the stored session |
| AuthContext.UseAuth | frontend/src/context/AuthContext.jsx:84-90 | The hook returns the provider's session, and throws exactly when there is no provider |
| AuthContext.InitializeShowsChildren | frontend/src/context/AuthContext.jsx:79 | The provider shows nothing while start-up runs, and shows its children once start-up has finished |
| AppRoutes.Route | frontend/src/App.jsx:122-142 | The route table guards exactly the paths matching "/dashboard" and "/workouts", opens exactly those matching "/login" and "/signup", redirects exactly those matching the root, and matches nothing else; matching ignores ASCII case and slashes at the end |
| AppRoutes.MatchesIffPatternThenSlashes | frontend/src/App.jsx:122-142 | A path matches a pattern exactly when a prefix of it equals the pattern up to ASCII case and the rest is slashes (at least one for the root), as the router's case-insensitive matcher accepts |
| AppRoutes.RouteIgnoresCaseAndTrailingSlashes | frontend/src/App.jsx:122-142 | Appending a slash never changes where a path leads; "/Dashboard/" and "/WORKOUTS//" reach the guarded pages and "//" the root redirect, while "/dashboards" and the empty path match nothing |
| AppRoutes.ProtectedRoute | frontend/src/App.jsx:89-101 | The guard shows its loading view exactly while start-up runs, redirects to "/login" exactly when nobody is signed in after start-up, and otherwise shows the page |
| AppRoutes.Render | frontend/src/App.jsx:103-149 | Nothing is on screen while the provider withholds its children or for an unknown path; a guarded path renders through the guard |
| AppRoutes.LoadingViewUnreachable | frontend/src/App.jsx:92-94 | The guard's loading view never reaches the screen, for any session and any path |
| AppRoutes.StartUpThenGuard | frontend/src/App.jsx:125-140 | A guarded path shows nothing before start-up finishes, and afterwards shows its page or the login redirect |
| AppRoutes.GuardedPaths | frontend/src/App.jsx:123-140 | After start-up the guarded pages show exactly when someone is signed in and otherwise redirect to "/login"; the open pages always show |
| AppRoutes.RootLandsOnDashboardOrLogin | frontend/src/App.jsx:141 | "/" leads to the dashboard for a signed-in user and, through the dashboard's guard, to the login page for everyone else |

## Left out

- Persistence: MongoDB and Mongoose are modelled as an in-memory sequence. Connections, indexes, ObjectId generation, `updatedAt` and the `timestamps` option are not modelled; the creation time and the new id are parameters.
- backend/models/User.js is not part of this model. Users are plain records, and email uniqueness is only what the signup handler checks.
- server.js, the CORS set-up and the database connection are not modelled; they are wiring, not logic.
- WorkoutRoutes.Create: the schema's required `user` path is not checked. The handlers take the acting id as a parameter, as if it were read correctly. With tokens as issued, the id the handlers read is undefined (`AuthGuard.IssuedTokenHasNoActingId`), so in the real program that save would fail.
- WorkoutModel.SchemaErrors: the message of Mongoose's aggregated validation error is approximated. The model's development-mode 500 detail is "Workout validation failed: " followed by the rule messages joined by ", "; the program's message also puts each entry's path in front of it ("exercises.0.sets: Sets must be at least 1"), and its entry order follows Mongoose's validation order.
- The 500 catch paths of GET, and the server-error paths of signup and login, are not modelled: they react to database failures the in-memory store cannot have.
- WorkoutRoutes.Update: ids are assumed to be well-formed ObjectIds. In the program, a malformed `:id` makes the update query throw a cast error, which the catch answers with 500 "Error updating workout"; the model answers 404 for such an id.
- WorkoutRoutes.Delete: ids are assumed to be well-formed ObjectIds. In the program, a malformed `:id` makes the delete query throw a cast error, which the catch answers with 500 "Error deleting workout"; the model answers 404 for such an id.
- The Mongoose cast of non-number values in sets, reps and weight is not modelled; the request already holds integers or nothing.
- WorkoutRoutes.Update: exercise names are trimmed as the update's setters do, and nothing else is cast or validated.
- bcrypt and jsonwebtoken internals are parameters: salt generation, hashing, comparison, signing and verification. The 24-hour expiry is passed to `sign` but never checked by the model's clock, because the model has none.
- Text.ParseInt: `parseInt` on integers is modelled, including sign, leading white space and the 0x prefix. Exponent forms of `Number.prototype.toString` and `parseFloat` are not modelled.
- Dashboard.ToPayloadExercise: the weight is sent as the text `parseFloat` would read, not as a number, because floating point is not modelled. Weights elsewhere are integers.
- Text.Lower: lower-casing covers ASCII letters only; full Unicode case mapping is not modelled.
- WorkoutsPage.Matches: an exercise without a name is treated as not matching. In the program, calling `toLowerCase` on it throws a TypeError.
- Dashboard.Editable: editing is modelled only for workouts whose exercises all carry a name, sets and reps. The model excludes the other workouts. For an exercise missing its sets or reps, the program's `toString` calls throw. For one missing only its name, the program opens the form with an undefined name, which the model's text fields cannot hold.
- WorkoutsPage.HandleInputChange: a non-name field must come with the index of an existing row, as every rendered input passes one.
- WorkoutsPage.ApplyAll and Dashboard.PerformAll: an action the screen does not offer in the current state is skipped.
- The dashboard's refetch after a save and its delete handler are not modelled. Neither holds logic beyond the request and the list fetch, which the other screen's `WorkoutsPage.Fetch` and `WorkoutsPage.HandleDelete` model.
- AppRoutes.Route: the router's percent-decoding of the path and any basename are not modelled; the path arrives decoded, as the browser location holds it.
- React scheduling and effects, `navigate`, and rendering markup are not modelled. `window.confirm` is a boolean parameter.
- The Navbar and the signup screen (frontend/src/components/Signup.jsx) are not part of this model.
- Local storage is a record of two optional keys; quota errors and other tabs are not modelled.
- AuthContext.Login: the message of the exception thrown for missing user data is a parameter.
