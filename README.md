# Sweet shop: inventory, accounts and client logic in Dafny

This project models the Sweet Shop Kata. The backend is a FastAPI service. It keeps a table of sweets: a name, a category, a price and a stock quantity. It also keeps a table of users, each with a role, and a user whose role is "admin" may change the inventory. The browser client is written in React. The model keeps the client's decision logic and leaves out the rendering.

- **Sweet table** (`sweets.dfy`, `sweet_list.dfy`, `schemas.dfy`).
  - `Sweets.SweetTable` is a class. It holds the rows in id order and the next id the database assigns.
  - Each HTTP handler is a method: create, list, update, delete, search, purchase and restock.
  - Every failure is an `HttpError` with the handler's own status and detail, and it leaves the table unchanged.
  - The class invariant says ids ascend and names are unique. Purchase and restock keep every stock non-negative.
  - `SweetList` holds the list functions shared with the client:
    - lookup by id;
    - removal by id (the client's `filter`);
    - stock change by id (the client's `map`).
- **Users and access** (`crud.dfy`, `auth.dfy`, `app.dfy`, `session.dfy`).
  - These cover the user table, the admin guard, registration with its duplicate-email check, and login with its whitespace stripping.
  - The client side has its route guard and the browser's `localStorage`.
  - bcrypt and JWT are foreign calls, so they are function parameters.
- **Client logic**:
  - `createsweet.dfy`, `editsweet.dfy`, `signup.dfy` and `login.dfy`: the forms.
  - `search_filters.dfy`: the filter bar.
  - `dashboard.dfy`, `admindashboard.dfy` and `customerdashboard.dfy`: the three dashboards.
  - Each page is a class whose fields are the React state the handler changes.
  - Every HTTP reply is an input: `Client.Reply` is success, an error status with an optional `detail`, or a thrown error.
  - The shop dashboard's multi-unit purchase loop is verified against `Sweets.SweetTable` itself. A run that buys `k` units lowers that sweet's stock by exactly `k` and never below zero, provided no other client changes that sweet during the run.

Shared helpers:
- `wrappers.dfy` has `Option` and `Result`.
- `http.dfy` has the error type.
- `text.dfy` has trimming, ASCII lower-casing and substring search.
- `client.dfy` has the reply type and the `detail || fallback` rule.

## Model

| member | source | states |
|---|---|---|
| Schemas.UserCreateWithoutRole | Backend/app/schemas.py:4-8 | a registration body with no role gets role "user"; the other fields are kept |
| Schemas.ToUserResponse | Backend/app/schemas.py:10-15 | the public user view carries exactly the id, name and e-mail |
| Schemas.ResponseHidesSecrets | Backend/app/schemas.py:10-15 | the public view is the same whatever the stored hash and role, so neither leaks |
| Schemas.WithId | Backend/app/schemas.py:35-38 | a response is the base fields plus the id |
| Schemas.WithIdOfBase | Backend/app/schemas.py:35-38 | a response is determined by its id and base fields |
| Crud.GetCurrentAdmin | Backend/app/crud.py:34-37 | fails with 403 "Admins only" exactly when the role is not "admin"; otherwise returns the same user |
| Crud.NewUser | Backend/app/crud.py:20-26 | the inserted row has the request's name and e-mail, the given role and the hash of the password |
| Crud.UserTable.constructor | Backend/app/crud.py:20-30 | the empty user table satisfies the table invariant |
| Crud.UserTable.CreateUser | Backend/app/crud.py:20-30 | appends exactly one user under a fresh id; the role defaults to "user"; ids stay ascending |
| Auth.HasEmail | Backend/app/routers/auth.py:16-17 | the duplicate-email lookup: some stored user has exactly this e-mail (definition) |
| Auth.FirstByUsername | Backend/app/routers/auth.py:53 | the position of the first user with the name; none exactly when no user has it |
| Auth.FirstNamedUnique | Backend/app/routers/auth.py:53 | a name has at most one first position |
| Auth.Login | Backend/app/routers/auth.py:45-69 | succeeds exactly when the first user with the stripped name verifies the stripped password; returns a "bearer" token and that user's stored role; otherwise 401 "Invalid credentials" |
| Auth.LoginAt | Backend/app/routers/auth.py:50-69 | when the first user of the stripped name accepts the stripped password, login returns that user's bearer token and stored role |
| Auth.FirstNamedAfterAppend | Backend/app/routers/auth.py:53 | appending a user keeps an earlier first user of a name first |
| Auth.LaterNamesakeIgnored | Backend/app/routers/auth.py:13-21 | registration checks only the e-mail, so a second user may reuse a name; login by that name still goes to the earlier user, and the newcomer changes no login outcome |
| Auth.LoginRejects | Backend/app/routers/auth.py:53-59 | no first user accepting the stripped password means login fails |
| Auth.RegisterUser | Backend/app/routers/auth.py:13-21 | a known e-mail fails with 400 "Email already registered" and changes nothing; otherwise one user is appended with the role from the request; only the e-mail is checked for duplicates; e-mail uniqueness is preserved |
| Auth.RegisterThenLogin | Backend/app/routers/auth.py:45-69 | a user registered without surrounding whitespace, under a name no earlier user has, logs in with the same credentials and gets the registered role, "admin" included (for a reused name see Auth.LaterNamesakeIgnored) |
| Auth.OnlyAppendedNamed | Backend/app/routers/auth.py:53 | with no earlier user of that name, the first user of the name is the appended one |
| Auth.AppendedUntrimmedRejects | Backend/app/routers/auth.py:50-54 | an appended user stored with untrimmed credentials is never matched by stripped ones |
| Auth.UntrimmedRegistrationLocksOut | Backend/app/routers/auth.py:50-51 | as written: a user registered with whitespace around the name or the password can never log in, whatever is typed |
| Auth.TrailingSpaceExample | Backend/app/routers/auth.py:50-51 | the concrete case: "alice" registered with password "secret1 " cannot log in |
| Auth.Normalized | Backend/app/routers/auth.py:50-51 | the registration request stripped the way login strips |
| Auth.RegisterUserTrimmed | Backend/app/routers/auth.py:13-21 | corrected registration: same checks and errors, with the name and password stored stripped |
| Auth.TrimmedRegistrationRoundTrip | Backend/app/routers/auth.py:45-69 | with stripping on both sides, and a stripped name no earlier user has, typing the registered credentials again, padded or not, logs in with the registered role |
| Text.TrimStart | Backend/app/routers/auth.py:50-51 | removes exactly the leading whitespace |
| Text.TrimEnd | Backend/app/routers/auth.py:50-51 | removes exactly the trailing whitespace |
| Text.Trim | Backend/app/routers/auth.py:50-51 | the result is no longer than the input, and does not start or end with whitespace |
| Text.TrimSlice | Backend/app/routers/auth.py:50-51 | the trim is the part of the input after its leading whitespace and before a whitespace-only suffix, character for character |
| Text.TrimOfTrimmed | Backend/app/routers/auth.py:50-51 | a string without surrounding whitespace is its own trim |
| Text.TrimIdempotent | Backend/app/routers/auth.py:50-51 | trimming twice is trimming once |
| Text.TrimLeadingSpace | Frontend/sweet_shop_kata/src/pages/Signup.jsx:29 | a leading space does not change the trim |
| Text.TrimEmptyIff | Frontend/sweet_shop_kata/src/pages/Login.jsx:74 | the trim is empty exactly when every character is whitespace |
| Text.LowerChar | Backend/app/routers/sweets.py:110-113 | ASCII capitals go to lower case; other characters stay |
| Text.Lower | Backend/app/routers/sweets.py:110-113 | lower-cases character by character and keeps the length |
| Text.LowerNoCapitals | Backend/app/routers/sweets.py:110-113 | a string without ASCII capitals is its own lower case |
| Text.Utf16Length | Frontend/sweet_shop_kata/src/pages/Signup.jsx:29-31 | JavaScript's length: between the number of characters and twice that |
| Text.Utf16LengthBmp | Frontend/sweet_shop_kata/src/pages/Signup.jsx:29-31 | for characters up to U+FFFF the JavaScript length is the number of characters |
| Text.ContainsIgnoreCase | Backend/app/routers/sweets.py:110-113 | `ilike '%t%'`: `t` occurs in `s` once both are lower-cased (definition) |
| Text.ContainsAt | Backend/app/routers/sweets.py:110-113 | an occurrence at any offset counts as containment |
| Text.ContainsIgnoreCaseSelf | Backend/app/routers/sweets.py:110-111 | every name contains itself ignoring case |
| Client.Truthy | Frontend/sweet_shop_kata/src/App.jsx:15 | JavaScript truthiness of a stored string: present and non-empty, as in `!token` (definition) |
| Client.DetailOr | Frontend/sweet_shop_kata/src/components/CreateSweet.jsx:68-69 | the server's detail when present and non-empty, else the fallback |
| Client.ReplyOf | Backend/app/routers/sweets.py:130-131 | a handler's result as the browser sees it: the body on success, the error's detail otherwise |
| Client.ServerDetailShown | Frontend/sweet_shop_kata/src/pages/AdminDashboard.jsx:115-116 | a server error with a non-empty detail is shown instead of the fallback |
| SweetList.AscendingIsUnique | Backend/app/routers/sweets.py:57 | ascending ids are unique, so `db.get` by id is well defined |
| SweetList.IndexOfId | Backend/app/routers/sweets.py:57 | the first position holding the id; none exactly when no entry has it |
| SweetList.Find | Backend/app/routers/sweets.py:57 | `db.get`: an entry of the table with that id; none exactly when absent |
| SweetList.FindAt | Backend/app/routers/sweets.py:57 | with unique ids, looking up an entry's id finds that entry at its position |
| SweetList.WithoutId | Frontend/sweet_shop_kata/src/pages/AdminDashboard.jsx:88 | keeps exactly the entries whose id differs; an absent id leaves the list as it is |
| SweetList.WithoutIdAppend | Frontend/sweet_shop_kata/src/pages/AdminDashboard.jsx:88 | removal by id distributes over concatenation, so the survivors keep their order |
| SweetList.UniqueTail | Backend/app/routers/sweets.py:57 | dropping the head keeps ids unique |
| SweetList.WithoutIdAt | Backend/app/routers/sweets.py:85-91 | with unique ids, removing by id is removing the one position holding it |
| SweetList.RemoveAtKeepsKeys | Backend/app/routers/sweets.py:90 | deleting one row keeps ids ascending and names unique |
| SweetList.ChangeStock | Backend/app/routers/sweets.py:133 | only the quantity changes, by exactly delta |
| SweetList.AdjustStock | Frontend/sweet_shop_kata/src/pages/CustomerDashboard.jsx:29-33 | entries with the id change stock by delta; the others, the length and the order are kept |
| SweetList.AdjustStockTwice | Backend/app/routers/sweets.py:133 | two stock changes of one id add up |
| SweetList.AdjustStockSum | Backend/app/routers/sweets.py:133 | two stock changes of one id equal one change by their sum |
| SweetList.AdjustStockZero | Backend/app/routers/sweets.py:159 | a change by zero changes nothing |
| SweetList.AdjustStockAt | Backend/app/routers/sweets.py:133 | with unique ids, a change by id is an update of exactly one position |
| SweetList.AdjustStockKeepsKeys | Backend/app/routers/sweets.py:159 | stock changes keep ids ascending and unique, and names unique |
| SweetList.SameKeysKeepKeys | Backend/app/routers/sweets.py:62-65 | lists with the same ids and names at each position share every key property |
| SweetList.FindAfterAdjust | Backend/app/routers/sweets.py:129-133 | after a stock change, the id is found with the changed stock; a missing id stays missing |
| Sweets.TextApplies | Backend/app/routers/sweets.py:110-113 | `if name:` / `if category:`: a text filter applies only when given and non-empty (definition) |
| Sweets.Matches | Backend/app/routers/sweets.py:109-117 | the filter chain: name and category contain the non-empty query texts ignoring case, and the price lies within each given bound, 0 included (definition) |
| Sweets.Select | Backend/app/routers/sweets.py:109-117 | keeps exactly the rows matching every given criterion, and no more rows than the table |
| Sweets.SelectAppend | Backend/app/routers/sweets.py:109-117 | selection distributes over concatenation, so the matches keep their table order |
| Sweets.SelectOne | Backend/app/routers/sweets.py:109-117 | a single row is kept exactly when it matches |
| Sweets.SelectAll | Backend/app/routers/sweets.py:109-117 | no criteria selects the whole table in order |
| Sweets.EmptyTextIgnored | Backend/app/routers/sweets.py:110-113 | an empty name or category filter acts as an absent one (`if name:`) |
| Sweets.Page | Backend/app/routers/sweets.py:119 | offset/limit: at most `limit` consecutive rows from `skip`, and exactly how many |
| Sweets.DefaultPage | Backend/app/routers/sweets.py:104-105 | with no `skip` or `limit` sent, a list or search answers with the first 50 rows, and with all of them when there are no more |
| Sweets.PageWithin | Backend/app/routers/sweets.py:119 | a page holds only rows of the list it pages |
| Sweets.ApplyPatch | Backend/app/routers/sweets.py:62-65 | writes price and quantity when supplied; id, name and category never change |
| Sweets.CategoryPatchIgnored | Backend/app/routers/sweets.py:62-65 | a patch with only a category changes nothing |
| Sweets.EmptyPatchIsIdentity | Backend/app/schemas.py:30-33 | the empty patch is accepted and changes nothing |
| Sweets.CreatedIsFoundByName | Backend/app/routers/sweets.py:110-119 | a just-created sweet with a new name matches a search for that exact name, and is on the default page exactly when fewer than 50 older sweets match it |
| Sweets.SweetTable.constructor | Backend/app/routers/sweets.py:13-34 | the empty table satisfies the invariant, with first id 1 |
| Sweets.SweetTable.Create | Backend/app/routers/sweets.py:13-34 | non-admin: 403 and no change. Existing name: 400 "Sweet already exists" and no change. Otherwise exactly one row is appended under a fresh id with the given fields. Names stay unique |
| Sweets.SweetTable.List | Backend/app/routers/sweets.py:38-45 | the window of the table at skip/limit, at most limit rows, all from the table |
| Sweets.SweetTable.Update | Backend/app/routers/sweets.py:49-74 | non-admin: 403. Missing id: 404 "Sweet not found". Both leave the table unchanged. Otherwise only the row with that id is patched, and every other row is kept |
| Sweets.SweetTable.Delete | Backend/app/routers/sweets.py:78-94 | non-admin: 403. Missing id: 404. Both leave the table unchanged. Otherwise exactly the row with that id is removed, the rest keep their order, and the id is gone |
| Sweets.SweetTable.Search | Backend/app/routers/sweets.py:98-119 | every result is a table row satisfying all the criteria; at most limit results; the window of the matching rows |
| Sweets.SweetTable.Purchase | Backend/app/routers/sweets.py:123-141 | a missing id or stock <= 0 gives 400 "Sweet not available" and no change. Otherwise exactly that row's stock drops by one. Non-negative stock is preserved |
| Sweets.SweetTable.ChangeStockAt | Backend/app/routers/sweets.py:133 | changes one row's stock by delta, keeping the invariant; if the new stock is non-negative, stock stays non-negative |
| Sweets.SweetTable.Restock | Backend/app/routers/sweets.py:145-167 | non-admin: 403. Amount <= 0: 400 "Restock amount must be positive", checked before the lookup. Missing id: 404. All three leave the table unchanged. Otherwise stock rises by exactly the amount. Non-negative stock is preserved |
| Filters.Slot | Frontend/sweet_shop_kata/src/pages/Dashboard.jsx:41-44 | one step appends its parameter exactly when its input is non-empty |
| Filters.SearchParams | Frontend/sweet_shop_kata/src/pages/Dashboard.jsx:40-44 | at most four parameters, in the order name, category, min_price, max_price, each carrying a non-empty input |
| Filters.SearchParamsKeys | Frontend/sweet_shop_kata/src/pages/AdminDashboard.jsx:59-63 | each key is present exactly when its input is non-empty (a price of 0 included) |
| Filters.Lookup | Backend/app/routers/sweets.py:100-103 | the endpoint's reading of one query key: absent exactly when no parameter has it |
| Filters.TextParam | Backend/app/routers/sweets.py:100-101 | a text query parameter as the endpoint reads it, absent when missing (definition) |
| Filters.NumberParam | Backend/app/routers/sweets.py:102-103 | a price query parameter as the endpoint reads it, absent when missing (definition) |
| Filters.CriteriaOf | Backend/app/routers/sweets.py:98-105 | the four optional search arguments the endpoint's signature reads from the query string (definition) |
| Filters.LookupCarries | Frontend/sweet_shop_kata/src/pages/Dashboard.jsx:40-44 | what the endpoint reads under a key is that key's input |
| Filters.ParamsRoundTrip | Frontend/sweet_shop_kata/src/pages/Dashboard.jsx:40-46 | the endpoint reads back exactly the non-empty inputs as its criteria |
| Filters.OmittingEmptyTextIsHarmless | Backend/app/routers/sweets.py:110-113 | leaving empty texts out of the query matches the same sweets as sending them |
| Filters.NoFiltersListsAll | Frontend/sweet_shop_kata/src/pages/Dashboard.jsx:32-46 | with empty inputs nothing is sent, every row matches, and the search answers with the first 50 rows of the table |
| Filters.AfterFetch | Frontend/sweet_shop_kata/src/pages/Dashboard.jsx:49-51 | an ok reply replaces the shown list; any other leaves it |
| Session.Store.constructor | Frontend/sweet_shop_kata/src/App.jsx:8-9 | the store starts empty |
| Session.Store.GetItem | Frontend/sweet_shop_kata/src/App.jsx:8-9 | the stored value, or none exactly when the key is absent |
| Session.Store.SetItem | Frontend/sweet_shop_kata/src/pages/Login.jsx:54-55 | stores the value under the key; nothing else changes |
| Session.Store.RemoveItem | Frontend/sweet_shop_kata/src/pages/Dashboard.jsx:60-61 | drops the key; nothing else changes |
| Session.Store.Logout | Frontend/sweet_shop_kata/src/pages/AdminDashboard.jsx:125-129 | forgets exactly the token and the role, then goes to /login (both dashboards) |
| App.PrivateRoute | Frontend/sweet_shop_kata/src/App.jsx:11-19 | no token redirects to /login, whatever role is required. A token with the wrong required role redirects to /dashboard. The page shows exactly when there is a token and the role is not required or matches |
| App.DropTrailingSlashes | Frontend/sweet_shop_kata/src/App.jsx:1 | the result is no longer than the path and does not end in a slash |
| App.DropTrailingSlashesSlice | Frontend/sweet_shop_kata/src/App.jsx:1 | the result is a prefix of the path and everything it cut off is slashes |
| App.NormalPath | Frontend/sweet_shop_kata/src/App.jsx:1 | the form the router compares: ASCII lower case, trailing slashes removed (definition) |
| App.NormalOfNormal | Frontend/sweet_shop_kata/src/App.jsx:1 | a path with no capitals and no trailing slash is already normal |
| App.RoutePathsNormal | Frontend/sweet_shop_kata/src/App.jsx:24-50 | the table's own paths are normal, and "/" normalizes to the empty path |
| App.AdminPathSpellings | Frontend/sweet_shop_kata/src/App.jsx:40-47 | "/Admin", "/ADMIN" and "/admin/" all reach the admin route; "/admins" does not |
| App.RouteOf | Frontend/sweet_shop_kata/src/App.jsx:24-50 | the route table on a normalized path: /login and /signup public, /dashboard behind a token, /admin behind the token and role "admin", the root redirecting to /login (definition) |
| App.Route | Frontend/sweet_shop_kata/src/App.jsx:24-50 | the route table applied to the normal form of the path, so matching ignores ASCII case and trailing slashes (definition) |
| App.Landing | Frontend/sweet_shop_kata/src/App.jsx:24-50 | a path whose route, after case and trailing slashes are normalized, shows a page lands on that page; a path no route matches in any spelling lands nowhere |
| App.RedirectTarget | Frontend/sweet_shop_kata/src/App.jsx:15-16 | every redirect goes to /login or /dashboard, never to a spelling of /admin |
| App.LandingFollowsRedirect | Frontend/sweet_shop_kata/src/App.jsx:15-16 | a redirect costs one hop and lands where its target lands; with no hop left nothing is reached |
| App.AdminRouteOnly | Frontend/sweet_shop_kata/src/App.jsx:40-47 | the only paths that render the admin dashboard are the spellings of /admin (any ASCII case, any trailing slashes), with a token and role "admin" |
| App.AdminSpellingGuarded | Frontend/sweet_shop_kata/src/App.jsx:40-47 | "/ADMIN" opens the admin dashboard exactly with a token and role "admin", like "/admin" |
| App.KnownPathsSettle | Frontend/sweet_shop_kata/src/App.jsx:24-50 | every path whose normal form is in the table shows a page within two redirects; without a token all but the spellings of /signup end on the login page |
| App.AdminPageIff | Frontend/sweet_shop_kata/src/App.jsx:40-47 | any spelling of /admin shows the admin dashboard exactly with a token and role "admin"; with another role it shows the customer dashboard |
| App.AdminOnlyViaAdminPath | Frontend/sweet_shop_kata/src/App.jsx:24-50 | only a path whose normal form is /admin, with a token and role "admin", ever leads to the admin dashboard, however many redirects are followed |
| App.DashboardNeedsOnlyToken | Frontend/sweet_shop_kata/src/App.jsx:30-37 | any spelling of /dashboard shows the customer dashboard exactly when there is a token |
| CreateSweet.IsValid | Frontend/sweet_shop_kata/src/components/CreateSweet.jsx:25-31 | valid exactly when the trimmed name and category are non-empty, the price is given and positive, and the quantity is given and non-negative |
| CreateSweet.Payload | Frontend/sweet_shop_kata/src/components/CreateSweet.jsx:48-53 | the body sends the trimmed name and category and the numbers entered |
| CreateSweet.HasData | Frontend/sweet_shop_kata/src/components/CreateSweet.jsx:88 | `hasData`: some input is non-empty (definition) |
| CreateSweet.SubmitDisabled | Frontend/sweet_shop_kata/src/components/CreateSweet.jsx:241 | with no request in flight, a name that is blank after trimming always disables the button |
| CreateSweet.ValidPayloadIsClean | Frontend/sweet_shop_kata/src/components/CreateSweet.jsx:25-53 | a valid form sends non-empty trimmed texts, a positive price and a non-negative quantity |
| CreateSweet.PayloadIgnoresPadding | Frontend/sweet_shop_kata/src/components/CreateSweet.jsx:48-53 | surrounding whitespace in the inputs changes neither the body nor the validity |
| CreateSweet.EmptyFormIsBlank | Frontend/sweet_shop_kata/src/components/CreateSweet.jsx:79-88 | the empty form has no data and is invalid |
| CreateSweet.ValidCreateKeepsStock | Frontend/sweet_shop_kata/src/components/CreateSweet.jsx:29 | a sweet from a valid form keeps every table quantity non-negative |
| CreateSweet.CreateSweetForm.constructor | Frontend/sweet_shop_kata/src/components/CreateSweet.jsx:17-23 | the form starts empty and not loading |
| CreateSweet.CreateSweetForm.HandleCreate | Frontend/sweet_shop_kata/src/components/CreateSweet.jsx:33-77 | an invalid form sends nothing and alerts. Otherwise it sends the payload. Success hands on the new sweet, closes and resets. An error status shows the detail or "Failed to create sweet" and keeps the form. A thrown error shows the generic alert |
| CreateSweet.CreateSweetForm.ResetForm | Frontend/sweet_shop_kata/src/components/CreateSweet.jsx:79-88 | all four inputs emptied, so `hasData` is false |
| EditSweet.InitialEdit | Frontend/sweet_shop_kata/src/components/EditSweet.jsx:5-9 | copies category, price and quantity, with an empty input for a falsy value |
| EditSweet.Changed | Frontend/sweet_shop_kata/src/components/EditSweet.jsx:22-27 | a numeric input enters the patch exactly when it is non-empty and differs from the stored value; typed text always differs |
| EditSweet.Patch | Frontend/sweet_shop_kata/src/components/EditSweet.jsx:18-27 | the patch holds exactly the non-empty, changed fields and never a name |
| EditSweet.UntouchedSendsNothing | Frontend/sweet_shop_kata/src/components/EditSweet.jsx:5-27 | fields never touched are never in the patch |
| EditSweet.SaveEffect | Frontend/sweet_shop_kata/src/components/EditSweet.jsx:18-27 | after the server applies the patch: name and category are unchanged, typed numbers are written, untouched or emptied inputs keep the stored value |
| EditSweet.UntouchedSaveKeepsSweet | Frontend/sweet_shop_kata/src/components/EditSweet.jsx:5-27 | saving untouched leaves the stored sweet as it was |
| EditSweet.HandleUpdate | Frontend/sweet_shop_kata/src/components/EditSweet.jsx:14-51 | the patch is sent even when empty. Success hands on the server's sweet and closes. An error status shows the detail or "Failed to update sweet". A thrown error shows the generic alert |
| Signup.UsernameValid | Frontend/sweet_shop_kata/src/pages/Signup.jsx:29 | at least 3 UTF-16 code units after trimming, as JavaScript's length counts (definition) |
| Signup.EmailValid | Frontend/sweet_shop_kata/src/pages/Signup.jsx:30 | contains both '@' and '.' (definition) |
| Signup.PasswordValid | Frontend/sweet_shop_kata/src/pages/Signup.jsx:31 | at least 6 UTF-16 code units, whitespace included (definition) |
| Signup.FormValid | Frontend/sweet_shop_kata/src/pages/Signup.jsx:32 | `isFormValid`: all three field checks hold (definition) |
| Signup.SubmitDisabled | Frontend/sweet_shop_kata/src/pages/Signup.jsx:221 | disabled while the form is invalid or a request is in flight (definition) |
| Signup.BlankPasswordEnablesSubmit | Frontend/sweet_shop_kata/src/pages/Signup.jsx:31 | with a valid name and e-mail the button is enabled for six spaces, a password login strips to nothing |
| Signup.EmailOrderFree | Frontend/sweet_shop_kata/src/pages/Signup.jsx:30 | '@' and '.' may come in either order |
| Signup.PaddedNamePasses | Frontend/sweet_shop_kata/src/pages/Signup.jsx:29 | the name is checked trimmed but sent as typed |
| Signup.BlankPasswordPasses | Frontend/sweet_shop_kata/src/pages/Signup.jsx:31 | six spaces pass the password check, though their trim is empty |
| Signup.AstralCharactersCountTwice | Frontend/sweet_shop_kata/src/pages/Signup.jsx:29-31 | three emoji pass the six-unit password check and an emoji plus a letter pass the three-unit name check |
| Signup.SignupPage.constructor | Frontend/sweet_shop_kata/src/pages/Signup.jsx:18-24 | no messages, not loading, nothing scheduled |
| Signup.SignupPage.HandleSubmit | Frontend/sweet_shop_kata/src/pages/Signup.jsx:34-66 | clears both messages and sends the form without a role. Success shows the success text and schedules /login. An error status shows the detail or the fallback. A thrown error shows the connection message |
| Login.FormValid | Frontend/sweet_shop_kata/src/pages/Login.jsx:74 | `isFormValid`: both inputs non-empty after trimming (definition) |
| Login.Welcome | Frontend/sweet_shop_kata/src/pages/Login.jsx:57 | the greeting embeds the name exactly as typed |
| Login.WhitespaceOnlyDisables | Frontend/sweet_shop_kata/src/pages/Login.jsx:74 | a whitespace-only password leaves the form invalid |
| Login.LoginPage.constructor | Frontend/sweet_shop_kata/src/pages/Login.jsx:17-22 | no messages, not loading, nothing scheduled |
| Login.LoginPage.HandleLogin | Frontend/sweet_shop_kata/src/pages/Login.jsx:26-72 | clears both messages. Success stores exactly the reply's token and role and schedules /dashboard. Otherwise nothing is stored, and the error is the detail, the fallback or the connection message |
| Login.LoggedInRoutes | Frontend/sweet_shop_kata/src/pages/Login.jsx:53-55 | after login, /dashboard opens, and /admin opens exactly when the returned role is "admin" |
| Login.LoggedOutRoutes | Frontend/sweet_shop_kata/src/App.jsx:15 | with the store cleared, every guarded route ends on the login page |
| Dashboard.TooManyMessage | Frontend/sweet_shop_kata/src/pages/Dashboard.jsx:70 | the alert for a quantity above the shown stock, with that stock written in decimal (definition) |
| Dashboard.Sellable | Backend/app/routers/sweets.py:129-131 | the units the table can sell: the stock when the id is found and the stock is positive, else none |
| Dashboard.Attempted | Frontend/sweet_shop_kata/src/pages/Dashboard.jsx:66-72 | the entered quantity passes both client checks: given, positive, and not above a positive shown stock (definition) |
| Dashboard.PurchaseControl | Frontend/sweet_shop_kata/src/pages/Dashboard.jsx:252-255 | absent exactly for role "admin"; disabled exactly when the stock is <= 0 or this sweet's purchase is in flight |
| Dashboard.DashboardView.constructor | Frontend/sweet_shop_kata/src/pages/Dashboard.jsx:19-24 | empty list and filters, not loading |
| Dashboard.DashboardView.FetchSweets | Frontend/sweet_shop_kata/src/pages/Dashboard.jsx:37-57 | sends the non-empty filters; a non-ok fetch keeps the list |
| Dashboard.DashboardView.HandlePurchase | Frontend/sweet_shop_kata/src/pages/Dashboard.jsx:65-94 | an empty or non-positive quantity sends nothing. A quantity above a positive shown stock alerts and sends nothing. Otherwise the units bought are the quantity capped by what the table can sell, and the table loses exactly that many. A refetch happens only when all units were bought. Stock never goes below zero |
| Dashboard.BuyUnits | Frontend/sweet_shop_kata/src/pages/Dashboard.jsx:76-88 | at most qty calls, one more than the units bought when the run stops early. The table loses exactly the units bought. The alert is the server's refusal or success. Refetch exactly when all were bought |
| Dashboard.SoldOneMore | Frontend/sweet_shop_kata/src/pages/Dashboard.jsx:76-86 | one more single-unit purchase is one more unit sold |
| Dashboard.PurchaseRefusedIff | Backend/app/routers/sweets.py:129-131 | after i units sold, the next purchase is refused exactly when i equals what was sellable |
| Dashboard.PurchaseStep | Frontend/sweet_shop_kata/src/pages/Dashboard.jsx:76-86 | a loop step is accepted exactly while units remain, and then sells one more |
| Dashboard.PurchaseRunKeepsStock | Frontend/sweet_shop_kata/src/pages/Dashboard.jsx:76-86 | a run never takes stock below zero |
| AdminDashboard.Mount | Frontend/sweet_shop_kata/src/pages/AdminDashboard.jsx:47-54 | any role but "admin", or none, goes to /dashboard and fetches nothing; an admin fetches with the filters |
| AdminDashboard.AdminFirstMountListsAll | Frontend/sweet_shop_kata/src/pages/AdminDashboard.jsx:47-63 | on first mount an admin sends no parameter and is shown the first 50 sweets; with more than 50 in the table, some are not shown |
| AdminDashboard.ConfirmRestockDisabled | Frontend/sweet_shop_kata/src/pages/AdminDashboard.jsx:493 | disabled exactly when the amount is empty or a restock is in flight (definition) |
| AdminDashboard.NonPositiveRestockShowsServerReason | Frontend/sweet_shop_kata/src/pages/AdminDashboard.jsx:493 | a zero or negative amount is not stopped by the client; the alert shows the server's "Restock amount must be positive" |
| AdminDashboard.TotalStock | Frontend/sweet_shop_kata/src/pages/AdminDashboard.jsx:133 | the `reduce` sum of the quantities: its ensures give only that it is non-negative when no stock is negative; its value is pinned by AdminDashboard.StatsAppend (additive over concatenation) and AdminDashboard.TotalStockAfterAdjust (moves by exactly the stock change) |
| AdminDashboard.OutOfStock | Frontend/sweet_shop_kata/src/pages/AdminDashboard.jsx:134 | the count of quantities exactly 0. It is zero exactly when none is 0, and the length exactly when all are 0 |
| AdminDashboard.StatsAppend | Frontend/sweet_shop_kata/src/pages/AdminDashboard.jsx:132-134 | both statistics add up over concatenation |
| AdminDashboard.ZeroTotalMeansAllOut | Frontend/sweet_shop_kata/src/pages/AdminDashboard.jsx:133-134 | with no negative stock, a total of 0 means every sweet counts as out of stock |
| AdminDashboard.AdjustAbsent | Frontend/sweet_shop_kata/src/pages/AdminDashboard.jsx:133 | a stock change of an id not shown changes nothing |
| AdminDashboard.TotalStockAfterAdjust | Frontend/sweet_shop_kata/src/pages/AdminDashboard.jsx:133 | with unique ids, changing one shown sweet's stock by delta changes the total by exactly delta |
| AdminDashboard.AdminDashboardView.constructor | Frontend/sweet_shop_kata/src/pages/AdminDashboard.jsx:27-40 | empty list, filters and dialog, nothing in flight |
| AdminDashboard.AdminDashboardView.FetchSweets | Frontend/sweet_shop_kata/src/pages/AdminDashboard.jsx:56-76 | sends the non-empty filters; a non-ok fetch keeps the list; nothing else changes |
| AdminDashboard.AdminDashboardView.HandleDelete | Frontend/sweet_shop_kata/src/pages/AdminDashboard.jsx:78-97 | unconfirmed: no request. Success: exactly the entries with the id are removed and the rest keep their order. Failure: alert only. A thrown error changes nothing |
| AdminDashboard.AdminDashboardView.OpenRestock | Frontend/sweet_shop_kata/src/pages/AdminDashboard.jsx:379 | opens the dialog for that sweet; nothing else changes |
| AdminDashboard.AdminDashboardView.CancelRestock | Frontend/sweet_shop_kata/src/pages/AdminDashboard.jsx:482-485 | closes the dialog and clears the amount |
| AdminDashboard.AdminDashboardView.HandleRestock | Frontend/sweet_shop_kata/src/pages/AdminDashboard.jsx:99-123 | sends the dialog's id and amount. Success clears the dialog and refetches. Failure shows the detail or "Failed to restock" and keeps the dialog. The list is untouched |
| CustomerDashboard.CustomerDashboardView.constructor | Frontend/sweet_shop_kata/src/pages/CustomerDashboard.jsx:4 | the list starts empty |
| CustomerDashboard.CustomerDashboardView.Load | Frontend/sweet_shop_kata/src/pages/CustomerDashboard.jsx:12-13 | the fetched list replaces the shown one wholesale |
| CustomerDashboard.CustomerDashboardView.HandlePurchase | Frontend/sweet_shop_kata/src/pages/CustomerDashboard.jsx:18-37 | ok: alerts and lowers that sweet's shown stock by one. Not ok: alerts and keeps the list. Thrown: nothing changes |
| CustomerDashboard.LocalDecrement | Frontend/sweet_shop_kata/src/pages/CustomerDashboard.jsx:29-33 | the bought sweet is shown with exactly one unit less; every other entry, the length, the order and id uniqueness are kept; an unknown id changes nothing |
| CustomerDashboard.ShownStockCanGoNegative | Frontend/sweet_shop_kata/src/pages/CustomerDashboard.jsx:52-57 | nothing on the page guards stock: a shown 0 becomes -1 after an accepted purchase |

## Left out

- HTTP, JSON parsing, SQLAlchemy sessions, navigation, `alert`, `prompt`, `confirm` and `setTimeout` are not modelled as effects. Replies are inputs, navigation is a returned path, alerts are returned messages, and a delayed navigation is a pending path.
- The database-error branches (500 on a failed commit) are not modelled: a commit always succeeds.
- Token authentication (`get_current_user` in `app.security`) is not part of this model. Handlers for any user take no caller; admin-only handlers take the authenticated user and check it with `Crud.GetCurrentAdmin`.
- bcrypt hashing and verification and JWT creation are function parameters (`hash`, `verify`, `createToken`). Auth.RegisterThenLogin, Auth.TrimmedRegistrationRoundTrip, Auth.AppendedUntrimmedRejects, Auth.UntrimmedRegistrationLocksOut and Auth.TrailingSpaceExample all assume that `verify` accepts exactly the password a hash was made from (`FaithfulVerify`). bcrypt ignores everything past 72 bytes, so for longer passwords it accepts others that share those bytes, and the lockout lemmas then say nothing about those passwords.
- Pydantic `EmailStr` validation is not modelled; e-mails are plain strings.
- Sweets.Select: `ilike` wildcards (`%`, `_` inside the query) are not modelled. Matching is plain substring search after ASCII lower-casing.
- Sweets.SweetTable.List: a query without `ORDER BY` is modelled as returning rows in id order.
- Sweets.SweetTable.List: negative `skip` and `limit` are not modelled; both are `nat`.
- Sweets.SweetTable.Create: ids are never reused; a new id is always one above every id ever assigned.
- App.NormalPath: only ASCII case folding and trailing slashes are modelled; the router's percent-decoding of paths and non-ASCII case folding are not, and a pathname is taken as given.
- Text.Trim: strips space, tab, line feed, vertical tab, form feed and carriage return. Python's `str.strip` also strips `\x1c`-`\x1f` and Unicode spaces, and JavaScript's `trim` strips Unicode spaces but not `\x1c`-`\x1f`, so the server and the client differ even within ASCII; the model treats both as the same six characters.
- JavaScript `Number()` coercion of arbitrary text (NaN, fractions, "1e2") is not modelled. A numeric input is empty or holds a number, and a purchase quantity is an integer.
- `avgPrice` (division and `toFixed`) is left out because it is floating-point formatting.
- `totalSweets` is the length of the shown list and needs no member of its own.
- Dashboard.DashboardView.HandlePurchase: a purchase request that throws part-way through the loop is not modelled, because the loop runs against the table, which always answers. The source then only logs to the console.
- Dashboard.BuyUnits: the "Purchase failed" fallback never shows, because the purchase endpoint's refusal always carries a detail.
- Dashboard.BuyUnits: requests from other clients between the loop's awaits are not modelled; the loop runs against one table that only it changes, so "lowers the stock by exactly the units bought" holds only when no one else buys or restocks that sweet meanwhile.
- The transient `purchaseLoading`, `deleteLoading` and `loading` flags that only drive spinners are left out or reduced to their final value. Two requests in flight at once are not modelled.
- AdminDashboard.AdminDashboardView.HandleRestock: the restock-while-no-sweet-selected case (`restockId` null in the URL) is left to the reply input.
- CustomerDashboard.CustomerDashboardView.Load: a non-ok fetch, where the page stores the error body as its list, is not modelled. `Load` takes a list of sweets.
- Error bodies that are not JSON are not modelled.
- The AdminDashboard passes `onCancel`/`onSaved` to the edit modal, which reads `onClose`/`onUpdate`. EditSweet is modelled by its own props, so this wiring is not modelled.
- Console logging, rendering, styling, `main.py` wiring and the test fixtures are not modelled.

## Findings

| source | as written | input that shows it | evidently intended | confidence | as-written member | corrected member |
|---|---|---|---|---|---|---|
| Backend/app/routers/auth.py:50-51 | login strips the name and password it receives, but registration (Backend/app/routers/auth.py:13-21, Backend/app/crud.py:24) stores them exactly as sent | register "alice" with password "secret1 " (trailing space); no typed password then logs in as "alice" | registration and login treat surrounding whitespace the same way, so a registered user can log in with the credentials they registered | not executed | Auth.UntrimmedRegistrationLocksOut, Auth.TrailingSpaceExample | Auth.RegisterUserTrimmed, Auth.TrimmedRegistrationRoundTrip |
