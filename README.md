# Travelfy authentication context and route guard, in Dafny

This project models the two pieces of the Travelfy travel-journal web app that carry logic:

- **The authentication context** (`src/context/AuthContext.tsx`). It keeps the list of registered
  users (`userCredentials`: username, password digest, optional bio) and the current user
  (`authUser`) in local storage. It mirrors the session into an `authUser` cookie, and it
  offers `login`, `signup`, `logout`, `getUserBio` and `updateUserBio`. The password digest
  `simpleHash` is a 32-bit rolling checksum rendered as decimal text. On mount the context
  adopts the `authUser` cookie when no current user is stored.
- **The route guard** (`src/middleware.ts`). It redirects by cookie presence and path, and its
  `config.matcher` decides which paths it runs on.

Module by module:

| file | module | what it holds |
|---|---|---|
| `wrappers.dfy` | `Wrappers` | `Option`, standing for `undefined`/`null` |
| `number_text.dfy` | `NumberText` | `Number.prototype.toString()` on integers, and its injectivity |
| `simple_hash.dfy` | `SimpleHash` | ECMAScript `ToInt32`, `h << 5`, the digest fold as a function, the digest loop as a method, and the proof that the fold is `31*h + c` modulo 2^32 |
| `cookie_text.dfy` | `CookieText` | `indexOf`, `split`, `find` and the parse of `document.cookie` for `authUser` |
| `credentials.dfy` | `Credentials` | the credential record, `find`/`findIndex`, `getUserBio`, the seeded `admin` list, distinct usernames |
| `auth_state.dfy` | `AuthState` | the context state as a value, each operation as a transition, and lemmas over any sequence of calls |
| `auth_provider.dfy` | `AuthContext` | `AuthProvider` as a class whose methods update its fields in place and are proved to perform those transitions |
| `middleware.dfy` | `Middleware` | the ordered redirect rules, the matcher as written and as intended, and the guard behind its matcher |

Representation choices:

- Passwords are sequences of UTF-16 code units (`charCodeAt` values in `[0, 65536)`).
- Usernames, bios, cookies and paths are Dafny strings.
- The stored `passwordHash` is the decimal text of the 32-bit value, as in the source.
  `NumberText.IntToStringInjective` shows that comparing these texts is the same as
  comparing the values.
- `bio` is optional, as in the record type. A stored record may lack it.
- Local storage entries other than `authUser` and `userCredentials` form the `storage` map,
  where `signup` writes `posts_<username>` = `"[]"`.
- The `authUser` cookie the context writes is the `authCookie` field. `login` sets it to
  `Some(username)` and `logout` sets it to `None`.
- The raw `document.cookie` text read at mount is a parameter.
- The cookie value is adopted under JavaScript truthiness. It must be non-empty, and the
  stored current user must be null or the empty string.

Three points where the code does less than its comments and names suggest; the model follows the code:

- The context's `signup` does not check the username itself: it accepts any name not yet
  taken, the empty one included. Its only caller, the signup page
  (`src/app/(auth)/signup/page.tsx:28-56`), refuses a mismatched confirmation, an empty
  username or password, and a password shorter than six characters before calling it.
- The cookie and the stored session are not kept identical. At mount, a stored current user
  wins over any cookie. A non-empty cookie value is adopted even when no record has that
  username.
- The cookie value is the text between the first and the second `=` of the `authUser=` row,
  so a value holding `=` is cut short (`CookieText.CookieValueIsField`).

## Model

| member | source | states |
|---|---|---|
| NumberText.NatToDecimal | src/context/AuthContext.tsx:33 | the decimal text is non-empty, all digits, and has no leading zero except for `0` itself |
| NumberText.DecimalRoundTrip | src/context/AuthContext.tsx:33 | reading the digits of `n` back gives `n` |
| NumberText.IntToString | src/context/AuthContext.tsx:33 | `toString()` of an integer is non-empty, starts with `-` exactly for a negative number, is otherwise all digits, and never reads `-0...` |
| NumberText.IntToStringInjective | src/context/AuthContext.tsx:33 | two integers have the same `toString()` text exactly when they are equal, so the string comparison of digests at line 83 compares the 32-bit values |
| SimpleHash.ToInt32 | src/context/AuthContext.tsx:31 | OR-ing `hash` with 0 yields a signed 32-bit value congruent to its input modulo 2^32, and leaves a value already in range unchanged |
| SimpleHash.ShiftLeft5 | src/context/AuthContext.tsx:30 | `hash << 5` is a signed 32-bit value |
| SimpleHash.ShiftLeft5Congruent | src/context/AuthContext.tsx:30 | `hash << 5` equals `32 * hash` modulo 2^32 |
| SimpleHash.Step | src/context/AuthContext.tsx:29-31 | one loop iteration `(h << 5) - h + c`, then truncation, equals `31*h + c` read as int32 |
| SimpleHash.Hash | src/context/AuthContext.tsx:26-34 | the digest value always lies in `[-2^31, 2^31)` |
| SimpleHash.HashIsPolynomial | src/context/AuthContext.tsx:26-34 | truncating after every character equals truncating the exact polynomial `sum s[i]*31^(n-1-i)` once |
| SimpleHash.HashText | src/context/AuthContext.tsx:26-34 | the returned digest text is the `toString()` of the polynomial of the code units, truncated to int32 |
| SimpleHash.EmptyHashText | src/context/AuthContext.tsx:27-33 | the digest of the empty password is `"0"` |
| SimpleHash.HashTextEqualIff | src/context/AuthContext.tsx:26-34 | two passwords give the same digest text exactly when their polynomials agree modulo 2^32 |
| SimpleHash.Digest | src/context/AuthContext.tsx:26-34 | the loop returns the text of the polynomial of the code units, truncated to int32 |
| CookieText.IndexFrom | src/context/AuthContext.tsx:67 | the first occurrence of the separator at or after a position, or none |
| CookieText.IndexOf | src/context/AuthContext.tsx:67 | the first occurrence of the separator, or none exactly when it does not occur |
| CookieText.Split | src/context/AuthContext.tsx:67 | `split(sep)` yields at least one piece, the pieces joined by `sep` give the input back, and no piece contains `sep`; the first piece ends at the leftmost occurrence of `sep`, and there is more than one piece exactly when `sep` occurs |
| CookieText.FindWithPrefix | src/context/AuthContext.tsx:67 | `find(row => row.startsWith(p))` returns the first row of the list that starts with `p`, and is absent exactly when none does |
| CookieText.CookieValue | src/context/AuthContext.tsx:67 | the cookie value is absent exactly when no `; `-separated row starts with `authUser=` |
| CookieText.CookieValueIsField | src/context/AuthContext.tsx:67 | a value read from the cookie is the text after `authUser=` in the first row that starts with it, up to the next `=` or the end of the row, so it never contains `=` |
| CookieText.CookieValueOfSingleRow | src/context/AuthContext.tsx:67 | the cookie string `authUser=v` reads back `v` when `v` holds neither `=` nor `; ` |
| CookieText.CookieValueOfFirstRow | src/context/AuthContext.tsx:67 | `authUser=v; rest` reads back `v` whatever the later cookies are, when `v` holds neither `=` nor `; ` |
| CookieText.CookieValueSkipsRow | src/context/AuthContext.tsx:67 | a leading row that is not `authUser=...` is skipped and the rest is read |
| CookieText.CookieValueAmongRows | src/context/AuthContext.tsx:67 | in cookie text made of rows joined by `; `, an `authUser=v` row with no `authUser` row before it reads back `v`, whatever comes after it |
| Credentials.FindIndex | src/context/AuthContext.tsx:136-137 | `findIndex` is -1 exactly when no record has the username, and otherwise the index of the first such record |
| Credentials.Find | src/context/AuthContext.tsx:79 | `find` is absent exactly when no record has the username, and otherwise the first such record |
| Credentials.GetUserBio | src/context/AuthContext.tsx:129-132 | the bio of the first record with that username, absent when there is no such record |
| Credentials.SeedUsers | src/context/AuthContext.tsx:60 | the default list holds one record, `admin` with the digest of `password`, so its usernames are distinct |
| AuthState.Initial | src/context/AuthContext.tsx:58-60 | on first load there is no current user and the seeded list has distinct usernames |
| AuthState.Login | src/context/AuthContext.tsx:77-91 | login succeeds exactly when the first record with the username stores the digest of the password; on success the current user and the cookie become the username; on failure nothing changes; the list and storage never change |
| AuthState.Signup | src/context/AuthContext.tsx:93-116 | signup succeeds exactly when the username is not taken; on success it appends one record `{username, digest, ''}` and writes `posts_<username>` = `[]`, and nothing else changes; on failure nothing changes |
| AuthState.Logout | src/context/AuthContext.tsx:118-127 | logout clears the current user and the cookie and keeps the user list and every stored entry |
| AuthState.UpdateUserBio | src/context/AuthContext.tsx:134-148 | the update succeeds exactly when the username exists; only the bio of the first record with that username changes; the length, every other record and the session are kept |
| AuthState.AdoptCookie | src/context/AuthContext.tsx:64-75 | at mount, the state changes only when the cookie value is non-empty and no non-empty current user is stored, and then the cookie value becomes the current user; list, cookie and storage are kept |
| AuthState.ApplyKeepsRecords | src/context/AuthContext.tsx:77-148 | any single call keeps usernames distinct, and it never removes, renames or re-hashes a record or drops a storage key |
| AuthState.RunKeepsRecords | src/context/AuthContext.tsx:77-148 | the same holds for any sequence of calls |
| AuthState.FromInitialDistinct | src/context/AuthContext.tsx:60 | from the seeded list, any sequence of calls keeps usernames pairwise distinct, with `admin` still first |
| AuthState.LoginIffStored | src/context/AuthContext.tsx:79-83 | with distinct usernames, login succeeds exactly when some record has the username and the password's digest |
| AuthState.SignupThenLogin | src/context/AuthContext.tsx:77-116 | after a signup, login with the same password succeeds; another password succeeds exactly when its 32-bit digest collides; a second signup with the name fails |
| AuthState.LogoutThenLogin | src/context/AuthContext.tsx:77-127 | logging out and back in restores the session and leaves the records and stored entries as they were |
| AuthState.AdminCanLogIn | src/context/AuthContext.tsx:60 | on first load `admin`/`password` logs in |
| AuthState.CookieRestoresSession | src/context/AuthContext.tsx:64-85 | after a login, a cleared `authUser` storage entry is restored from the cookie that login wrote, among any other cookies, as long as no other `authUser` row comes before it |
| AuthContext.AuthProvider.constructor | src/context/AuthContext.tsx:57-60 | the state takes the stored values, or null and the seeded list when the keys are absent |
| AuthContext.AuthProvider.SyncFromCookie | src/context/AuthContext.tsx:64-75 | the mount effect updates the fields as `AuthState.AdoptCookie` does |
| AuthContext.AuthProvider.Login | src/context/AuthContext.tsx:77-91 | the method returns and updates the fields as `AuthState.Login` does |
| AuthContext.AuthProvider.Signup | src/context/AuthContext.tsx:93-116 | the method returns and updates the fields as `AuthState.Signup` does, and keeps usernames distinct |
| AuthContext.AuthProvider.Logout | src/context/AuthContext.tsx:118-127 | the method updates the fields as `AuthState.Logout` does |
| AuthContext.AuthProvider.UpdateUserBio | src/context/AuthContext.tsx:134-148 | the method returns and updates the fields as `AuthState.UpdateUserBio` does, and keeps usernames distinct |
| Middleware.Decide | src/middleware.ts:12-37 | the answer is a redirect to `/dashboard`, a redirect to `/login`, or pass-through. `/dashboard` exactly for an authenticated `/login`, `/signup` or `/`. `/login` exactly for an unauthenticated app route or `/` |
| Middleware.HandleRequest | src/middleware.ts:4-37 | a request with the `authUser` cookie is never sent to `/login`, one without it is never sent to `/dashboard`, and only `/`, `/login`, `/signup` and app routes are ever redirected |
| Middleware.OnlyCookiePresenceMatters | src/middleware.ts:4-10 | two requests with the same path and the same presence of `authUser` get the same answer, whatever the cookie values |
| Middleware.NoRedirectLoop | src/middleware.ts:12-37 | the redirect target, requested with the same authentication, passes through |
| Middleware.RouteTestExamples | src/middleware.ts:12-25 | the app-route tests are raw prefixes (`/postsX` is protected) and the auth-page tests are exact (`/login/` is not) |
| Middleware.MatchesAsWritten | src/middleware.ts:49 | the regular expression as written only matches paths starting with `/`, and skips every path starting with `/api`, `/_next/static`, `/_next/image` or `/favicon.ico` |
| Middleware.Matches | src/middleware.ts:40-49 | the matcher read as its comment lists it matches a path exactly when it starts with `/` and with none of `/api`, `/_next/static`, `/_next/image`, `/favicon.ico` |
| Middleware.FaviconDotIsWildcard | src/middleware.ts:49 | as written, `/faviconXico` is skipped, while the intended matcher guards it |
| Middleware.MatchersDifferOnlyOnFavicon | src/middleware.ts:49 | the matcher as written and as intended disagree only on `/favicon?ico...` paths whose ninth character is not a dot |
| Middleware.GuardedRoutesMatched | src/middleware.ts:12-49 | every path the rules test (`/`, `/login`, `/signup`, the app routes) is inside both matchers |
| Middleware.Guard | src/middleware.ts:40-49 | a request outside the matcher passes through; one inside gets the middleware's answer |
| Middleware.GuardAsWritten | src/middleware.ts:4-49 | behind the matcher as written, a skipped request passes through and a matched one gets the middleware's answer |
| Middleware.GuardAsWrittenAgrees | src/middleware.ts:4-49 | the guard gives the same response behind either matcher, for every request |
| Middleware.GuardHasNoRedirectLoop | src/middleware.ts:4-49 | following the guard's redirect with the same cookies passes through |

## Left out

- The `loading` flag and the effect that clears it are UI timing, not logic.
- The `setTimeout` delays and the `async`/Promise wrapping are left out. Each operation is one synchronous step.
- The React plumbing is left out: `createContext`, `useContext`, `useAuth`, the provider markup and effect scheduling.
- Reading `users` through a closure created before the `await` is not modelled. Concurrency between tabs, where the last writer wins, is not modelled either.
- `useLocalStorage` is not part of this model. Its persistence and JSON encoding are modelled as the fields it exposes, and the `posts_<username>` value as the text `JSON.stringify([])` gives.
- The `typeof window` and `typeof request.cookies.has` guards are taken as true. The code runs in the browser, and the request always has a cookie store.
- `setCookie`/`removeCookie` dates, paths and `document.cookie` writes are browser I/O. The cookie written is modelled as the `authCookie` field.
- How the browser turns its cookie jar into `document.cookie` text is not modelled. The mount effect takes that text as a parameter.
- `NextResponse.redirect`/`URL` construction is not modelled. A redirect is its target path.
- How Next.js compiles `config.matcher` is not modelled: path-to-regexp details, trailing slashes, `_next/data` and locale prefixes. The matcher is read as an anchored regular expression on the pathname.
- Line terminators, which `.` in a regular expression does not match, are not considered. URL parsing removes them from pathnames.
- `split` with an empty separator is not modelled. The source only splits on `'; '` and `'='`.
- Usernames are Dafny strings, whose characters are Unicode scalar values, not UTF-16 code units. Lone surrogates in a username cannot be represented.
- The post store and pin toggling live in files that are not part of this model. `src/types/post.ts` only declares a record type.
- The signup page's form checks are not part of this model; `AuthState.Signup` takes any username and password, as the context's `signup` does.
- The layout and sidebar components are presentation only.
- The model makes no claim about the strength of the password digest.

## Findings

| source | as written | input that shows it | evidently intended | confidence | as-written member | corrected member |
|---|---|---|---|---|---|---|
| src/middleware.ts:49 | the unescaped `.` in `favicon.ico` is a regular-expression wildcard, so the matcher skips any path whose text after `/` starts with `favicon`, one character, then `ico` | `/faviconXico` is not guarded | skip only the literal `/favicon.ico` prefix, as the comment on line 47 says | medium, not executed | Middleware.FaviconDotIsWildcard | Middleware.Matches |

The guard composition `Middleware.Guard` uses the corrected matcher. The two matchers agree on every path the redirect rules test (`Middleware.GuardedRoutesMatched`), and the slip changes no response: `Middleware.GuardAsWrittenAgrees` shows the guard answers every request the same behind either matcher.
