# GreenBasket storefront core, modelled in Dafny

This project models the logic of a small React storefront whose state lives
in browser memory and in `localStorage`. Four pieces are modelled:

- **Order store** (`OrderContext`). This is an in-memory list of orders.
  `addOrder` appends a `pending` order and `cancelOrder` marks every order
  with a given id `cancelled`. `getOrderById` and `getAllOrders` read the list.
  Module `Orders` holds the `OrderStore` class, whose field `orders` is a
  `seq<OrderItem>`. It also holds the pure functions the class uses and the
  lemmas about them. One of those lemmas is a reachability argument over any
  sequence of operations.
- **Registration and login** (`Register.tsx`, `Login.tsx`). Each handler
  runs an ordered chain of guards over the form and the single stored
  credential record. It then either writes keys to storage or reports the
  first failing guard and clears password fields.
  - Modules `Register` and `Login` give the guard chain as a function.
  - `Submit` returns the storage writes or the error, plus the new form.
  - Each page is a class whose `HandleSubmit` method performs the `setItem`
    calls one at a time and is proved equal to `Submit`.
  - `generateToken` is a loop method proved against `TokenFor`.
- **Session utility** (`auth.ts`). `handleLogout` removes five keys and
  `isAuthenticated` tests for a non-empty `token`. Module `Auth` has both.
- **Catalog filter** (`Product.tsx`). This is a case-insensitive name search
  combined with an "all, or exact" category test. Module `Catalog` has it.

Two shared modules support these:

- `Storage` defines `Store = map<string, string>` and a `LocalStorage` class
  with `SetItem` and `RemoveItem`.
- `JsString` gives the JavaScript string semantics the handlers rely on:
  - `length` counts UTF-16 code units;
  - the `\s` character class is the exact ECMAScript whitespace set;
  - `toLowerCase` is modelled for ASCII letters only;
  - `includes` is a substring test;
  - `toString(36)` converts a non-negative integer to base 36.

Module `Email` states the e-mail regular expression `^[^\s@]+@[^\s@]+\.[^\s@]+$`
in two ways. One is a character-level check: no whitespace, exactly one `@`
with something before it, and after it a `.` that is neither the first nor
the last character. The other is the pattern's own structure, `a@b.c`, with
three non-empty runs. A lemma proves the two agree.

Randomness and the clock are parameters:

- the 32 draws of `Math.random()` for the registration token;
- the random fragment and `Date.now()` for the login token;
- `Date.now()` and `new Date()` for an order's id and date.

## Model

| member | source | states |
|---|---|---|
| `JsString.Utf16Length` | src/comp/Register.tsx:37 | JavaScript's `length` lies between the number of characters and twice that |
| `JsString.IsJsWhitespace` | src/comp/Register.tsx:42 | among ASCII characters the regular expression's `\s` matches exactly space and tab through carriage return; `@` and `.` are not whitespace |
| `JsString.ToLower` | src/pages/Product.tsx:90 | lower-casing keeps the length, turns each ASCII upper-case letter into its lower-case form (code point plus 32) and keeps every other character |
| `JsString.ToLowerIdempotent` | src/pages/Product.tsx:90 | lower-casing twice equals lower-casing once |
| `JsString.Includes` | src/pages/Product.tsx:90 | `includes` can only hold when the needle is no longer than the haystack |
| `JsString.IncludesEmpty` | src/pages/Product.tsx:90 | every string includes the empty query |
| `JsString.ToBase36` | src/comp/Login.tsx:47 | `toString(36)` gives a non-empty numeral of base-36 digits with no leading zero |
| `JsString.Base36RoundTrip` | src/comp/Login.tsx:47 | reading the base-36 numeral back gives the clock value |
| `Email.IsValidEmail` | src/comp/Register.tsx:42-43 | an accepted address has at least five characters and contains `@`; the login page applies the same check (src/comp/Login.tsx:27-28) |
| `Email.ValidEmailMatchesPattern` | src/comp/Register.tsx:42-45 | the character-level check accepts exactly the strings of the form `a@b.c` with three runs free of whitespace and `@` |
| `Email.ValidEmailNonEmpty` | src/comp/Login.tsx:22-30 | an address that passes the shape check is never empty |
| `Email.ExampleAddressValid` | src/comp/Register.tsx:42-45 | `a@b.com` passes the shape check |
| `Storage.GetItem` | src/comp/Login.tsx:33-34 | `getItem` yields a value exactly when the key is present, and that value is the stored one |
| `Storage.HasValue` | src/comp/Login.tsx:37 | `!!getItem(key)` holds exactly when `getItem` yields a value that is not the empty string; `isAuthenticated` uses the same test (src/utils/auth.ts:16) |
| `Storage.LocalStorage.SetItem` | src/comp/Register.tsx:65-71 | `setItem` makes the key hold the value and changes no other key |
| `Storage.LocalStorage.RemoveItem` | src/utils/auth.ts:4-8 | `removeItem` deletes the key and changes no other key |
| `Auth.IsAuthenticated` | src/utils/auth.ts:15-17 | true exactly when `token` is present with a non-empty value |
| `Auth.LoggedOut` | src/utils/auth.ts:2-9 | the five authentication keys are absent; every other key keeps its presence and value |
| `Auth.HandleLogout` | src/utils/auth.ts:2-9 | the five `removeItem` calls leave storage equal to `LoggedOut` of the old storage |
| `Auth.LogoutDeauthenticates` | src/utils/auth.ts:5-16 | after logout `isAuthenticated` is false |
| `Auth.LogoutIdempotent` | src/utils/auth.ts:2-9 | logging out twice equals logging out once |
| `Register.TokenFor` | src/comp/Register.tsx:10-17 | the token has 32 characters, all from the 62-character alphanumeric alphabet |
| `Register.GenerateToken` | src/comp/Register.tsx:10-18 | the loop's result is the token the draws select, 32 alphabet characters |
| `Register.Message` | src/comp/Register.tsx:38-60 | every guard's error text is non-empty |
| `Register.MessageIdentifiesGuard` | src/comp/Register.tsx:38-60 | two guards show the same text exactly when they are the same guard |
| `Register.Validate` | src/comp/Register.tsx:36-61 | no error exactly when all five guards pass; otherwise the reported guard fails and every earlier guard (name, e-mail, duplicate, length, match) passes |
| `Register.Submit` | src/comp/Register.tsx:63-92 | fails exactly when a guard fails and reports its error; on failure the form keeps name and e-mail and clears both password fields; on success the form is unchanged |
| `Register.SuccessStoresCredentials` | src/comp/Register.tsx:63-71 | on success `userToken` and `token` hold the same token, `userEmail`, `userPassword` and `userName` hold the submitted values, and no other key changes |
| `Register.FailureKeepsStorage` | src/comp/Register.tsx:86-92 | on failure storage is unchanged and only the password fields are cleared |
| `Register.Writes` | src/comp/Register.tsx:65-71 | a successful registration writes exactly the five keys: both token keys hold the token, and `userEmail`, `userPassword` and `userName` hold the form's e-mail, password and name |
| `Register.DuplicateEmailRejected` | src/comp/Register.tsx:47-51 | with a valid name and e-mail equal to the stored `userEmail`, registration fails as already registered and storage (and the session) is unchanged |
| `Register.WritesAreSetItems` | src/comp/Register.tsx:65-71 | the five `setItem` calls in source order leave the same storage as applying the writes at once |
| `Register.ExampleRegistration` | src/comp/Register.tsx:36-71 | registering "Al" / a@b.com / secret1 / secret1 without a stored account succeeds and records a@b.com and secret1 |
| `Register.RegisterPage.constructor` | src/comp/Register.tsx:22-27 | the form starts with four empty fields |
| `Register.RegisterPage.HandleSubmit` | src/comp/Register.tsx:32-92 | the form and storage afterwards are those `Submit` gives for the generated token |
| `Login.Validate` | src/comp/Login.tsx:21-44 | no error exactly when all four guards pass; otherwise the reported guard fails and every earlier guard (fields filled, e-mail shape, account found, credentials match) passes |
| `Login.Message` | src/comp/Login.tsx:23-43 | every guard's error text is non-empty |
| `Login.MessageIdentifiesGuard` | src/comp/Login.tsx:23-43 | two guards show the same text exactly when they are the same guard |
| `Login.SessionToken` | src/comp/Login.tsx:47 | the login token is never empty |
| `Login.Submit` | src/comp/Login.tsx:17-62 | fails exactly when a guard fails; on failure only the password field is cleared; on success the form is unchanged and only `token` is written |
| `Login.SucceedsIffCredentialsMatch` | src/comp/Login.tsx:22-44 | login succeeds exactly when the e-mail has the right shape and both fields equal the stored, non-empty e-mail and password |
| `Login.SuccessWritesOnlyToken` | src/comp/Login.tsx:46-48 | success writes the new token under `token`, leaves every other key as it was, and authenticates |
| `Login.FailureKeepsStorage` | src/comp/Login.tsx:60-62 | on failure storage is unchanged and the e-mail field is kept |
| `Login.LoginAfterRegister` | src/comp/Login.tsx:33-44 | after a successful registration, logging in with the same e-mail and password succeeds |
| `Login.LoginAfterLogoutRefused` | src/comp/Login.tsx:33-39 | right after logout no login can succeed, because the credential record is gone |
| `Login.ExampleLogins` | src/comp/Login.tsx:17-62 | with a@b.com / secret1 on record, logging in with secret1 authenticates, while "wrong" is refused as invalid credentials and leaves storage unchanged |
| `Login.LoginPage.constructor` | src/comp/Login.tsx:12-15 | the form starts with both fields empty |
| `Login.LoginPage.HandleSubmit` | src/comp/Login.tsx:17-62 | the form and storage afterwards are those `Submit` gives |
| `Orders.Placed` | src/context/OrderContext.tsx:27-32 | the new order is `pending`, carries the supplied clock values as id and date, and copies name, price, quantity and address from the draft |
| `Orders.CancelMatching` | src/context/OrderContext.tsx:35-41 | same length and order; every order with the id becomes cancelled whatever its status, with its other fields kept; every other order is unchanged |
| `Orders.FirstWithId` | src/context/OrderContext.tsx:43-45 | nothing exactly when no order has the id; otherwise the order at the first index with that id |
| `Orders.CancelIdempotent` | src/context/OrderContext.tsx:35-41 | cancelling twice equals cancelling once |
| `Orders.CancelAbsentIsNoop` | src/context/OrderContext.tsx:36-40 | cancelling an id no order has leaves the list unchanged |
| `Orders.FindAfterCancel` | src/context/OrderContext.tsx:35-45 | after cancelling an id, looking it up finds a cancelled order, or nothing if the id was absent before |
| `Orders.FindAfterAdd` | src/context/OrderContext.tsx:26-45 | appending an order whose id is already used leaves lookups returning the older order; with a new id the lookup returns the new order |
| `Orders.StepKeepsStatuses` | src/context/OrderContext.tsx:26-41 | adding or cancelling keeps every order `pending` or `cancelled` |
| `Orders.ReachableStatuses` | src/context/OrderContext.tsx:24-41 | every list reachable from the empty store holds only `pending` and `cancelled` orders |
| `Orders.OrderStore.constructor` | src/context/OrderContext.tsx:24 | the store starts empty |
| `Orders.OrderStore.AddOrder` | src/context/OrderContext.tsx:26-33 | the list grows by one; earlier orders are unchanged; the last is a `pending` order with the supplied fields and clock values |
| `Orders.OrderStore.CancelOrder` | src/context/OrderContext.tsx:35-41 | the list becomes `CancelMatching` of the old list, and the pending-or-cancelled invariant is kept |
| `Orders.OrderStore.GetOrderById` | src/context/OrderContext.tsx:43-45 | nothing exactly when no order has the id; otherwise the order at the first index with that id |
| `Orders.OrderStore.GetAllOrders` | src/context/OrderContext.tsx:47 | the current list itself, in insertion order |
| `Catalog.Filter` | src/pages/Product.tsx:89-93 | never longer than the catalog; every product shown passes both tests; a product is shown exactly when it is in the catalog and passes both |
| `Catalog.MatchesSearch` | src/pages/Product.tsx:90 | a product can only match a query no longer than its name |
| `Catalog.MatchesCategory` | src/pages/Product.tsx:91 | `all` admits every product; any other selection admits exactly the products of that category |
| `Catalog.CatalogIds` | src/pages/Product.tsx:37-87 | the catalog holds six products with ids 1 to 6 in display order |
| `Catalog.FilterMultiplicity` | src/pages/Product.tsx:89-93 | a product passing both tests appears as often as in the catalog; any other product does not appear |
| `Catalog.FilterIsSubsequence` | src/pages/Product.tsx:89-93 | the shown products keep catalog order |
| `Catalog.FilterIdempotent` | src/pages/Product.tsx:89-93 | filtering the shown list again with the same query and category changes nothing |
| `Catalog.FilterIgnoresQueryCase` | src/pages/Product.tsx:90 | two queries that lower-case alike show the same products |
| `Catalog.LowerCasedQuerySameResult` | src/pages/Product.tsx:90 | a query and its lower-cased form show the same products |
| `Catalog.EmptyQueryAllShowsEverything` | src/pages/Product.tsx:89-92 | an empty query with category `all` shows the whole list |
| `Catalog.CategorySelection` | src/pages/Product.tsx:91 | with `all` the name test alone decides; with any other category every shown product has exactly that category |
| `Catalog.CatalogShowsAll` | src/pages/Product.tsx:37-92 | on the six-product catalog the initial page state shows every product |

## Left out

- Rendering, styling, animation, toasts and router navigation are left out. So are the `setTimeout` redirects and the `storage` event dispatched after each credential change. They schedule or signal work and do not decide anything.
- `Math.random()`, `Date.now()` and `new Date()` become parameters. The registration token is built from 32 supplied draws in [0, 62). The random fragment of the login token is an opaque string.
- `JsString.ToLower`: lower-cases ASCII letters only. JavaScript's `toLowerCase` also maps non-ASCII letters, so two queries differing only in the case of a non-ASCII letter are treated as different here.
- Prices are integer cents and never computed on. Cart totals, `toFixed` and other floating-point money are not modelled.
- The cart store is not part of this model: its provider's source is not available. Its callers are presentation only.
- The Navbar's own logout handler removes only `token`. It is a separate UI handler and is not part of this model.
- The `useOrder` missing-provider exception is React plumbing.
- React's deferred state updates are not modelled: every `setOrders`/`setFormData` takes effect at once. In the page, `getOrderById` reads the list of the current render.
- Exceptions that `localStorage` itself can raise (quota, disabled storage) are not modelled. Those would also reach the handlers' `catch` blocks.
- No shown caller invokes `addOrder`: the checkout page only clears the cart (src/pages/PaymentCheckout.tsx:23-25). The checkout flow is therefore not modelled.
- The order store has no operation that removes orders, so none is modelled.
- Order ids are `Date.now()` readings and may repeat, so the model does not assume they are distinct.
