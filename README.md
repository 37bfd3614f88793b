# Course/tutor API: pagination and authentication gate

A model, in Dafny, of the two pieces of logic in a small Rails JSON API for courses and tutors:

- **Pagination** (`pagination.dfy`, module `Pagination`). `PaginationService` takes an ordered collection and an optional `page` and `per_page`. It fixes the effective page (default 1) and page size (default 10, at most 100) at construction. `paginate` then returns the slice of the collection for that page with `page`, `per_page`, `total_count`, `total_pages`, `has_next` and `has_prev`. The service is pure, so it is a datatype `Service<T>` and functions over it, with the collection as a `seq<T>`.
- **Authentication gate** (`application.dfy`, module `Application`). `ApplicationController` runs `authenticate_user!` before every action except registration and login. It takes the last whitespace-separated word of the `Authorization` header as the token and decodes it. A payload whose `user_id` names a user binds `current_user`. Otherwise the request is answered 401 with `Invalid or missing token` or `User not found`. Any other unhandled error is answered 500 with the fixed body `Internal Server Error`. The decision is the function `Authenticate`. The class `ApplicationController` holds the per-request `currentUser` field, which its method `AuthenticateUser` sets.
- `wrappers.dfy` (module `Wrappers`) holds `Option` (Ruby's `nil`) and `Result`.

Collaborators that cannot be seen are parameters:
- `JwtService.decode` is an arbitrary function `decode: Option<string> -> Option<Payload>`. It receives `None` when the header gives no token, as the Ruby code passes `nil` on.
- `User.find` is a lookup in a map `users: map<UserId, U>`. A missing key is the `RecordNotFound` case.
- An action's own code is a function `body: Option<U> -> Result<Response, string>`, where a `Failure` is an error it raised, carrying its message.

Choices where the code leaves a case open:
- `page` and `per_page` arrive already parsed as `Option<int>`. The code applies only the upper clamp of 100. It does not default or clamp a page or page size of zero or below, and neither does the model.
- A page size of 0 makes `(count.to_f / 0).ceil` raise, because the ceiling of Infinity or NaN is a `FloatDomainError`. `Paginate` returns `Failure(ZeroPerPage)` for it.
- A page below 1 or a negative page size gives a negative SQL offset or limit, whose effect depends on the database. `Paginate` returns `Failure(WindowOutsideModel)` for those, and its `Success` cases are exactly page ≥ 1 and page size ≥ 1.
- The float division and ceiling of `total_pages` is integer ceiling division. For non-negative counts and positive page sizes the two agree.

## Model

| member | source | states |
|---|---|---|
| `Pagination.New` | app/services/pagination_service.rb:6-10 | an absent page becomes 1 and an absent page size 10; a given page is kept; a page size is kept up to 100, becomes exactly 100 above it, and is never above 100 |
| `Pagination.TotalPages` | app/services/pagination_service.rb:31-33 | the page count r is the ceiling of count / per_page, `(r-1)*per_page < count <= r*per_page`, and it is 0 exactly when the collection is empty |
| `Pagination.TotalPagesIsTheCeiling` | app/services/pagination_service.rb:32 | any r meeting the ceiling bounds equals `TotalPages`, so the page count is exactly `ceil(count / per_page)` |
| `Pagination.Offset` | app/services/pagination_service.rb:13 | on a page ≥ 1 and page size ≥ 1 the offset `(page-1)*per_page` is never negative |
| `Pagination.Paginate` | app/services/pagination_service.rb:12-27 | an answer exists exactly when page ≥ 1 and per_page ≥ 1, and a page size of 0 fails as the float ceiling does; the data holds at most per_page items, its i-th item is the collection's item at offset+i, and its length is 0 past the end and `min(per_page, count - offset)` otherwise; the metadata echoes page and per_page, has total_count = collection size, a ceiling page count, `has_next` iff page < total_pages, `has_prev` iff page > 1 |
| `Pagination.NonEmptyIffWithinTotalPages` | app/services/pagination_service.rb:13-14 | a page holds items exactly when its number is at most the page count; pages past the end are empty, without error |
| `Pagination.HasNextIffNextPageNonEmpty` | app/services/pagination_service.rb:35-37 | `has_next` holds exactly when the following page holds items |
| `Pagination.PageSizeWithinRange` | app/services/pagination_service.rb:13-14 | on a page between 1 and the page count, the item count is `min(per_page, total_count - offset)` and positive |
| `Pagination.PagesCoverCollection` | app/services/pagination_service.rb:13-14 | pages 1 to total_pages, concatenated, are exactly the collection: every item is on one page, in order, none repeated |
| `Pagination.DefaultRequestOverTwentyFive` | spec/services/pagination_service_spec.rb:26-56 | 25 items with no parameters: 10 items, page 1, per_page 10, total 25, 3 pages, a next page and no previous one |
| `Pagination.SecondPageOfFiveOverTwentyFive` | spec/services/pagination_service_spec.rb:59-89 | 25 items, page 2 at size 5: 5 items, 5 pages, both neighbours |
| `Pagination.LastPageOverTwentyFive` | spec/services/pagination_service_spec.rb:92-101 | 25 items, page 3 at size 10: the last 5 items, no next page, a previous one |
| `Pagination.EmptyCollection` | spec/services/pagination_service_spec.rb:104-113 | an empty collection: no items, total 0, 0 pages, neither neighbour |
| `Pagination.PerPageClampedToHundred` | spec/services/pagination_service_spec.rb:19-22 | a requested page size of 150 becomes exactly 100 |
| `Application.SplitFrom` | app/controllers/application_controller.rb:23 | whitespace splitting never yields an empty word or a word containing whitespace, and a word already being read means the result is not empty |
| `Application.Split` | app/controllers/application_controller.rb:23 | every word `split` yields is non-empty and free of whitespace |
| `Application.SplitKeepsNonSeparators` | app/controllers/application_controller.rb:23 | the words put together are exactly the header's non-whitespace characters in order |
| `Application.ExtractToken` | app/controllers/application_controller.rb:22-24 | a token comes only from a present header and is a non-empty word without whitespace |
| `Application.ExtractTokenIsLastWord` | app/controllers/application_controller.rb:22-24 | `split.last` equals the last word read from the end of the header: trailing whitespace dropped, then back to the previous whitespace |
| `Application.NoTokenIffBlank` | app/controllers/application_controller.rb:23 | there is no token exactly when the header is absent or all whitespace |
| `Application.SchemeIgnored` | app/controllers/application_controller.rb:23 | whatever scheme precedes the last space, the token is the word after it; the scheme is not checked |
| `Application.HeaderExamples` | app/controllers/application_controller.rb:23 | `abc` yields `abc`, `Bearer a b` yields `b`, a blank header yields no token |
| `Application.Authenticate` | app/controllers/application_controller.rb:7-18 | proceeds exactly when the decoded payload has a `user_id` naming a user, and then with that user; 401 `Invalid or missing token` exactly when decoding yields nothing or no `user_id`; 401 `User not found` exactly when the `user_id` names no user; every halt is 401 |
| `Application.BlankHeaderIsRejected` | app/controllers/application_controller.rb:7-14 | if the decoder rejects a missing token, an absent or blank header is answered 401 `Invalid or missing token` |
| `Application.GateIgnoresScheme` | app/controllers/application_controller.rb:7-24 | `<scheme> <token>` authenticates exactly as the bare token |
| `Application.HandleInternalError` | app/controllers/application_controller.rb:26-31 | the response is status 500 with error `Internal Server Error`, independent of the error's message |
| `Application.HandleRequest` | app/controllers/application_controller.rb:2-3 | a protected action that the gate halts is answered by the gate's response; otherwise the action runs with the bound user (none when `register` or `login` skip the gate), and an error it raises becomes the 500 response |
| `Application.HaltedRequestSkipsAction` | app/controllers/auth_controller.rb:2 | when the gate halts a protected action, the answer is 401 and does not depend on the action's code at all |
| `Application.RaisedErrorIsOpaque` | app/controllers/application_controller.rb:3 | an action that raises is answered exactly `500 {error: 'Internal Server Error'}` |
| `Application.ApplicationController.constructor` | app/controllers/application_controller.rb:20 | a request starts with no current user and nothing rendered |
| `Application.ApplicationController.AuthenticateUser` | app/controllers/application_controller.rb:7-18 | when `Authenticate` proceeds, `currentUser` becomes the user and nothing is rendered; when it halts, its response is rendered and `currentUser` is unchanged |

## Left out

- `String#to_i` coercion of raw query strings: `page` and `per_page` arrive as `Option<int>`, so a non-numeric string that would become 0 is given as `Some(0)`.
- `Pagination.Paginate`: gives no data for a page below 1 or a negative page size, because the database decides what a negative offset or limit returns (`WindowOutsideModel`). The code's metadata for those cases is not modelled either.
- The float arithmetic of `total_pages`: integer ceiling division is used. It agrees with the float version for these counts.
- `paginate` leaves the collection, `@page` and `@per_page` unchanged. The service is an immutable value here, so this holds by construction and needs no separate statement.
- `JwtService` (encode, decode, signature, expiry, secret): its source is not part of this model. `decode` is a parameter, so token round-trip and expiry properties are not stated.
- `Application.BlankHeaderIsRejected`: assumes that `decode(None)` is `None`. The model cannot see what the real decoder does with `nil`.
- An exception raised by `JwtService.decode` inside the gate is not modelled. The decoder is a total function here.
- Logging in `handle_internal_error` is left out, because it is I/O.
- `register`, `login`, the course actions, model validations, routes and the database are framework plumbing. They appear only as the `Action` names and the `body` parameter of `HandleRequest`.
- The payload's `user_id` is an integer or absent. Ruby's other falsy value, `false`, counts as absent.
