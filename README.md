# Federated-login user bridge and user reducer, modelled in Dafny

The repository is a small Auth0 login demo. Two pieces of it carry logic of their own, and
this project models both:

- the verify callback given to the Auth0 strategy in `app/server/server.js`. It looks up the
  local user by the provider identity id `profile.identities[0].user_id`. If a row exists it
  calls `done(null, { id })`. Otherwise it inserts a row built from the display name, the
  first email, the picture and the identity id, and calls `done` with the new row's id;
- the Redux `reducer` in `app/src/ducks/user_reducer.js`. On `GET_USER_INFO_FULFILLED` it
  returns a copy of the state whose `user` is the action's payload. Every other action returns
  the state as it is. An absent state defaults to `{ user: {} }`.

Files:

- `wrappers.dfy`: module `Wrappers`, an `Option` type.
- `user_table.dfy`: module `UserTable`. It holds the user rows (columns `id`, `user_name`,
  `email`, `img`, `auth_id`), the two store queries as functions on a table value, and the
  class `UserStore`. That class holds the rows and the next fresh id, and its methods change
  them in place.
- `server.dfy`: module `Server`. It holds the profile, the principal, the callback's outcome,
  the specification function `Login`, the imperative `VerifyCallback` proved against it, and
  the lemmas about find-or-create.
- `user_reducer.dfy`: module `UserReducer`. It holds state objects as property maps,
  `Object.assign`, `Reducer`, and a fold `Dispatch` of the reducer over a sequence of actions.

The SQL files `find_user` and `create_user` are not part of this model. The store rests on two
assumptions, and on nothing else about it:

1. `find_user(auth_id)` returns the rows whose `auth_id` equals the argument, in table order.
2. `create_user(user_name, email, img, auth_id)` appends one row with a fresh id and returns
   exactly that row. Its four parameters fill the columns in that order.

A store query that rejects returns nothing and changes nothing. Which queries reject is a
parameter of the call (`StoreFaults`). The callback's promise chain is modelled as sequential
steps. It can end in three ways:

- `Done(Principal(id))`: `done` is called with the principal.
- `Hung`: `done` is never called. This happens when the lookup rejects. It also happens when
  no row has the key and then either the profile has no email (reading `emails[0].value`
  throws inside a `.then` handler) or the create rejects. A returning user gets `Done` even
  with no email, because `emails[0]` is read only on the create path.
- `Threw`: the database handle is not attached yet (the connection promise has not resolved,
  so `app.get('db')` is undefined), or the profile has no identity. Either way the code throws
  before any query is issued.

The store starts from the persisted table, which keeps the rows of every earlier sign-up; a
fresh database is the case of an empty table.

## Model

| member | source | states |
|---|---|---|
| `UserTable.FindUserRows` | app/server/server.js:36-38 | the lookup result holds exactly the rows whose `auth_id` is the key, each one a row of the table |
| `UserTable.CreateUserRow` | app/server/server.js:44-46 | creating appends one row `(nextId, user_name, email, img, auth_id)`, returns exactly that row, and the id counter moves past it, so the table stays serial-keyed |
| `UserTable.FindUserRowsAppend` | app/server/server.js:36-46 | a lookup after appending rows returns the old matches first, then the new ones |
| `UserTable.FindUserRowsNone` | app/server/server.js:36-42 | a key that no row carries finds no row, which sends the callback into the create branch |
| `UserTable.FindUserRowsUnique` | app/server/server.js:36-40 | when identity ids are unique, looking up a row's identity id returns that row alone, so `user[0]` is that user |
| `UserTable.UserStore.constructor` | app/server/server.js:22-23 | the store the connection attaches holds the persisted table as it is, with all its earlier rows |
| `UserTable.UserStore.FindUser` | app/server/server.js:36-37 | `find_user` returns no result when it rejects, otherwise the matching rows, and changes nothing |
| `UserTable.UserStore.CreateUser` | app/server/server.js:44-45 | `create_user` leaves the table unchanged when it rejects, otherwise appends the one new row and returns it |
| `Server.Login` | app/server/server.js:32-52 | one call adds at most one row and modifies no existing row. A successful call's principal is the id of a row carrying the profile's identity id. An outcome other than `done` leaves the table unchanged |
| `Server.VerifyCallback` | app/server/server.js:32-52 | with no database handle attached yet the callback throws. Otherwise the step-by-step callback on the store yields exactly the outcome and new table given by `Login`, and keeps the table valid |
| `Server.ExistingUserFound` | app/server/server.js:38-40 | when the lookup succeeds and some row has the key, the callback returns `{ id }` of the first row found and the table is unchanged, whatever the emails or a create fault. With unique identity ids that is the user's own row |
| `Server.NewUserCreated` | app/server/server.js:42-47 | a first login appends exactly one row `(displayName, emails[0].value, picture, identity id)` with the fresh id, and returns that id |
| `Server.LoginIdempotent` | app/server/server.js:36-47 | a second login with the same identity id returns the same principal and adds no row, whatever the other profile fields say |
| `Server.KeyedByIdentity` | app/server/server.js:36 | two profiles with the same identity id, both with or both without an email, get the same outcome: the email value never matters |
| `Server.StoreFaultHangs` | app/server/server.js:36-50 | when the lookup rejects, or the create rejects on the create path, `done` is never called and the table is unchanged |
| `Server.LoginPreservesInvariants` | app/server/server.js:36-49 | a call keeps the ids serial and the identity ids unique, because it creates only when no row has the key |
| `UserReducer.ObjectAssign` | app/src/ducks/user_reducer.js:28 | `Object.assign` yields the union of the properties, with later sources taking precedence |
| `UserReducer.Reducer` | app/src/ducks/user_reducer.js:25-33 | on `GET_USER_INFO_FULFILLED` the result's `user` is the payload and every other property is copied. Any other type returns the state |
| `UserReducer.DefaultStateIsInitial` | app/src/ducks/user_reducer.js:4-6 | an undefined state behaves as `{ user: {} }` |
| `UserReducer.FulfilledReplacesUser` | app/src/ducks/user_reducer.js:27-28 | a fulfilled action gives exactly the input state with `user` set to the payload |
| `UserReducer.OtherTypesIgnored` | app/src/ducks/user_reducer.js:29-30 | the bare `GET_USER_INFO`, `_PENDING` and `_REJECTED` types return the state unchanged |
| `UserReducer.ReducerIdempotent` | app/src/ducks/user_reducer.js:25-33 | applying the same action twice gives the same state as applying it once |
| `UserReducer.PreloadedStoreHasNoUser` | app/src/store.js:5 | from the preloaded `{}`, a non-fulfilled action leaves no `user` property, so the default is not used |
| `UserReducer.LastFulfilledWins` | app/src/ducks/user_reducer.js:25-33 | after any sequence of actions, `user` holds the last fulfilled payload and every other property keeps its value. With no fulfilled action the state is unchanged |

## Left out

- The session, Passport and Express setup (`app/server/server.js:13-19`) and the `listen` call
  (`55-58`): library wiring and I/O.
- The connection itself (`app/server/server.js:22-24`): only its result is modelled, as the
  store over the persisted table, or no handle while the promise is pending.
- The access token, refresh token and extra parameters of the callback: the callback never reads them.
- Asynchrony: the promise chain is sequential steps, and a rejected query is a parameter.
  Concurrent first logins, which can create duplicate rows, are a concurrency issue and are not
  modelled. `LoginPreservesInvariants` holds only for sequential calls.
- Profiles are total records of strings. An `undefined` display name or picture, which the
  store would save as NULL, is not modelled. Neither is a missing `emails` or `identities`
  property; only empty arrays are.
- The SQL of `find_user` and `create_user`: only the two assumptions above are modelled.
- `Server.LoginIdempotent`: on a table that already holds duplicate identity ids, the lemma
  relies on `find_user` returning rows in table order, which plain SQL does not guarantee.
- `getUserInfo` (`app/src/ducks/user_reducer.js:12-20`): an HTTP request.
- Reducer: object identity is not modelled. "Returns the state itself" is modelled as value
  equality, and values cannot be mutated, so "the input is not mutated" holds by construction.
  Only object states are modelled, not `null` or primitive states. Numbers are integers.
- `app/src/store.js` beyond its `{}` preload and the `_FULFILLED` suffix. The views in
  `Private.js`, `Login.js` and `App.js` are rendering, and their random balance is floating
  point and nondeterministic.
