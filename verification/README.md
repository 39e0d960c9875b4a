# Ayurveda Education Reform Platform — a Dafny model of its client-side core

The platform runs entirely in the browser. It keeps its data as JSON in the
browser's local and session storage. Its logic is three small pieces,
modelled here as pure functions over immutable values:

* **The account directory and session** (`auth.js`). Accounts sit in a map
  keyed by lower-cased email. The per-tab session holds an account's public
  profile, which is the account without its password hash. The transitions
  are `register`, `login`, `logout`, `updateUserActivity` and
  `enhancedSubmitPost`.
  * `register` validates in a fixed order: required fields, then duplicate
    email, then password length.
  * `login` fails on an unknown email, then on a hash mismatch.
  * `register` and `login` return the new directory together with what the
    call returned or threw (`Auth.Step`). `logout` and
    `updateUserActivity` cannot fail and return the new directory.
  * A failed call leaves the directory as it was.
* **The password hash** (`hashPassword`). It folds h := ToInt32(31·h + c)
  over the password's UTF-16 code units, which is Java's `String.hashCode`,
  and renders the result as a decimal string. The model writes each step as
  the source does (`(h << 5) - h + c`, then `& h`) and proves that the loop
  equals the 32-bit wrap of the unbounded Horner polynomial. It also proves
  that decimal rendering is injective, so comparing the stored strings
  compares the hashes. The hash is deliberately not cryptographic: "Aa" and
  "BB" collide.
* **Entity collections** (`app.js`). Posts, members, campaigns,
  inspections, proposals and notifications are sequences of JSON records.
  * A record built with object spread (`{id, ...data, fixed}`) is a map
    union in which later fields win (`Json.Spread`).
  * Posts and notifications are put in front; the other collections append.
  * Reactions bump one counter on the first post with the given id.
  * Search is a case-insensitive substring filter. A JavaScript `TypeError`,
    such as `toLowerCase` on a missing field, is an explicit error result.
  * `PlatformStorage` is a key→JSON map that returns a default on a miss and
    can drop a write.
* **Share statistics and labels** (`whatsapp-integration.js`). These are the
  `trackShare` counter update, with the `Math.random()` draw as a parameter,
  the coalition counts with their fallbacks, the role→group-name table, and
  the guest defaults.

Clocks (`Date.now()`, `toISOString()`) and randomness are parameters (`now`,
`isoNow`, `random`). These date fields are the day part `isoNow.split('T')[0]` (`Text.BeforeT`):
the post `date`, the member `joinDate`, the campaign `startDate`, the
inspection `submittedDate` and the proposal `createdDate`. The account's
`registrationDate` and `lastActivity` and the notification `timestamp`
are the full `isoNow`.

Modules: `Basics`, `Text`, `PasswordHash`, `Json`, `PlatformStorage`,
`Forum`, `Coalition`, `Compliance`, `Proposals`, `Search`, `Notifications`,
`Auth`, `Posting`, `Share`.

Facts about the code that a reader might not expect:
* The duplicate-email test in `register` uses the email as typed, not the
  normalized one. See Findings.
* `updateUserActivity` adds 1 point. `enhancedSubmitPost` adds 5 points and
  does not refresh the session's score.
* Roles are not validated against a fixed set: any string is stored.

## Model

| member | source | states |
|---|---|---|
| PasswordHash.ToInt32 | auth.js:48-49 | the result is a signed 32-bit integer congruent to the input modulo 2^32, and equals the input when it is already in range |
| PasswordHash.HashCodeIsWrappedPoly | auth.js:43-52 | the as-written loop (`(h << 5) - h + c`, then `h & h`) computes the 32-bit wrap of the polynomial sum of the code units with base 31 |
| PasswordHash.HashLoop | auth.js:43-51 | the `for` loop over `charCodeAt` returns ToInt32 of the polynomial hash, a signed 32-bit value |
| PasswordHash.IntToDecimalInjective | auth.js:51 | `toString()` gives distinct integers distinct strings and equal integers equal strings |
| PasswordHash.HashPasswordMatch | auth.js:43-52 | two passwords have the same stored hash string exactly when their 32-bit polynomial hashes agree |
| PasswordHash.EmptyPasswordHash | auth.js:45-51 | the empty password hashes to "0" |
| PasswordHash.CollidingPasswords | auth.js:43-52 | "Aa" and "BB" both hash to "2112", so the hash is not injective |
| PasswordHash.HashCodeSameSuffix | auth.js:46-50 | two unit sequences with equal hashes keep equal hashes after the same suffix is appended |
| PasswordHash.CollidingLongPasswords | auth.js:43-52 | "AaAaAa" and "BBAaAa" are both six code units long and share a hash |
| Text.Utf16Append | auth.js:46-47 | the code units of a concatenation are the code units of its parts, concatenated |
| Text.CodeUnits | auth.js:46-47 | a character below U+10000 is the single unit equal to its code point; any other character is a high surrogate followed by a low surrogate that together decode to its code point |
| Text.Utf16 | auth.js:46-47 | the code units `charCodeAt` visits are each below 0x10000, and there are at least as many as characters |
| Text.Utf16RoundTrip | auth.js:46-47 | decoding the code units of any string gives back that string, so the unit sequence `charCodeAt` walks over is lossless |
| Text.AstralExample | auth.js:46-47 | U+1F600 is the two units D83D DE00, so its `length` is 2 |
| Text.LowerIdempotent | auth.js:73 | lower-casing a lower-cased email changes nothing |
| Text.IncludesIffOccurs | app.js:91 | `includes` holds exactly when the term occurs at some index of the text |
| Text.IncludesEmpty | app.js:91-93 | every string includes the empty term |
| Text.BeforeT | app.js:71 | `split('T')[0]` is a prefix of the timestamp with no `T`, followed in the timestamp by a `T` or nothing |
| Auth.Register | auth.js:54-96 | the first failing check decides the error: missing field, then the raw email already a key, then fewer than 6 UTF-16 units; any failure leaves accounts and session unchanged. On success the account is stored under the lower-cased email with that email, the password's hash, verified false, score 0 and empty posts and proposals, and no other account changes. The session and the returned value are the account without its password |
| Auth.RegisterReplacesAccount | auth.js:62-86 | as written, registering "A@b" over a stored "a@b" succeeds and replaces the old account, losing its posts; the corrected registration refuses with EmailTaken |
| Auth.RegisterNormalized | auth.js:58-92 | with the duplicate test on the lower-cased email, EmailTaken is reported exactly when that key is taken, and no existing account is ever changed |
| Auth.Login | auth.js:98-116 | succeeds exactly when the lower-cased email has an account whose stored hash equals the password's hash; EmailNotFound exactly when the lower-cased email has no account; InvalidPassword exactly when the stored hash differs from the password's hash; failures change nothing; success sets the session to the stored profile and never changes the accounts |
| Auth.RegisterThenLogin | auth.js:54-116 | after a successful registration, logging in with the same email and password succeeds with the profile registration returned |
| Auth.RegisterNormalizedThenLogin | auth.js:86-112 | the same round trip holds for the corrected registration |
| Auth.LoginAcceptsCollision | auth.js:105 | a fresh account registered with the six-character password "AaAaAa" is accepted and then also opens with "BBAaAa" |
| Auth.Logout | auth.js:118-127 | logout leaves the accounts alone and afterwards `isLoggedIn` is false |
| Auth.GetUserRole | auth.js:125-131 | `'guest'` without a session, otherwise the session's role |
| Auth.RoleAfterSessionChange | auth.js:98-131 | after logout the role is `'guest'`; after a successful login it is the role stored with the account of the lower-cased email |
| Auth.UpdateUserActivity | auth.js:133-146 | with no session or no stored account nothing changes; otherwise that account's score rises by exactly 1 and its last activity is stamped, nothing else in it or in any other account changes, and the session copies only the new score |
| Auth.RegisterPreservesValid | auth.js:71-92 | registration keeps every account under its own lower-cased email with a non-negative score, and the session naming a stored account |
| Auth.SessionTransitionsPreserveValid | auth.js:98-146 | login, logout and activity updates keep the same invariant |
| Posting.PostData | auth.js:618-630 | the data handed to `addPost` carries no `id`, so the post gets the generated one |
| Posting.CreditPost | auth.js:632-639 | when the session's account is stored, the new post id is appended to its posts and its score rises by 5, and nothing else changes; otherwise nothing changes; the session is never refreshed |
| Posting.SubmitPost | auth.js:601-637 | a guest, or an empty subject or message, changes nothing; otherwise the post goes in front of the feed and its id is credited to the account |
| Posting.SubmitPostContent | auth.js:618-630 | a successful post is one more post, in front, older posts unchanged, with the generated id, author "Anonymous " + role when anonymous else the user's name, the subject and message, and zeroed reactions |
| Posting.SubmitPostPreservesValid | auth.js:632-639 | posting keeps the directory invariant |
| PlatformStorage.SaveData | app.js:6-12 | an accepted write stores the value under its key; a refused write is dropped; other keys are untouched |
| PlatformStorage.LoadData | app.js:14-22 | returns the default when the key is absent, otherwise the stored value |
| PlatformStorage.SaveLoadRoundTrip | app.js:6-22 | a load after a save returns the saved value |
| PlatformStorage.SaveOtherKey | app.js:6-22 | saving under one key does not change what another key loads |
| PlatformStorage.DroppedWrite | app.js:9-11 | a refused write changes no load |
| PlatformStorage.CollectionRoundTrip | app.js:76-77 | a collection saved as a JSON array of objects reloads as the same collection |
| Json.Spread | app.js:68-74 | object spread keeps the keys of both objects, and the later object wins on a clash |
| Json.ListRoundTrip | app.js:8-17 | decoding an encoded collection gives it back |
| Json.ListRoundTripBack | app.js:8-17 | encoding a decoded array gives the array back |
| Forum.NewPost | app.js:67-74 | the new post's id is the caller's id if given, else `now`; date, zeroed reactions and empty replies override the caller's fields; every other caller field is kept |
| Forum.AddPost | app.js:76 | the new post is at index 0, every old post moves up one place unchanged, and the length grows by one |
| Forum.FindPost | app.js:82 | finds the first post whose id equals the given id, or reports that none does |
| Forum.Bump | app.js:84 | adding 1 to the counter read with a default of 0: an absent or falsy counter gives 1, a number n gives n + 1, `true` gives 2, and a non-empty string gets "1" appended; only array and object counters are outside the model |
| Forum.AddReactionEffect | app.js:81-87 | no matching post: nothing changes. Otherwise the call throws a TypeError exactly when that post's `reactions` is missing, null or a primitive. It succeeds exactly when `reactions` is an object whose counter is not an array or object; then only the first matching post's one counter changes, a numeric one to its count plus 1, and all other posts, fields and counters are unchanged |
| Forum.CoercedCounters | app.js:84 | a counter holding `true` becomes 2, and a counter holding "4" becomes "41" |
| Forum.ReactOnce | app.js:84 | one reaction on a post with counter n sets it to n + 1 |
| Forum.ThreeSupports | app.js:72-87 | three `support` reactions on a new post give support 3, helpful 0, concerned 0 |
| Forum.FieldIncludes | app.js:91-93 | a field is searchable exactly when it is a string, and then matches exactly when its lower-cased text includes the lower-cased term |
| Forum.PostMatchesSearchable | app.js:90-94 | on a post with string subject, content and category, the callback is the disjunction of the three tests |
| Forum.SearchPostsSound | app.js:89-95 | on searchable posts the search succeeds and returns a subsequence of the feed in feed order. Each matching post appears as many times as in the feed, and no other post appears |
| Forum.SearchEmptyTermKeepsAll | app.js:89-95 | the empty term returns the whole feed when every subject is a string |
| Forum.SearchPostsLength | app.js:89-95 | the result is never longer than the feed |
| Coalition.NewMember | app.js:106-112 | the new member keeps the caller's fields except that the join date and `verified: false` are forced |
| Coalition.AddMember | app.js:114 | the member is appended and the old members are unchanged |
| Coalition.NewCampaign | app.js:120-127 | the new campaign has one supporter and status `active` whatever the caller passed, plus its other fields |
| Coalition.CreateCampaign | app.js:129 | the campaign is appended and the old ones are unchanged |
| Coalition.DistinctStatesMembers | app.js:136 | a value is among the distinct states exactly when some member has it as its state (`undefined` included) |
| Coalition.DistinctStatesBound | app.js:136-139 | there are never more distinct states than members, and none only when there are no members |
| Coalition.ActiveCount | app.js:140 | the count equals the number of positions holding a campaign whose status is `'active'`, and so never exceeds the number of campaigns |
| Coalition.UpdateStats | app.js:135-141 | the member count is the number of members; the state count is the size of the set of distinct member states (whose contents `Coalition.DistinctStatesMembers` fixes), at most the member count and zero only without members; the active count is the number of campaigns whose status is `'active'` |
| Coalition.AddMemberStats | app.js:106-141 | adding a member adds one member, and adds one state exactly when its state is new |
| Coalition.CreateCampaignStats | app.js:120-141 | creating a campaign adds exactly one active campaign and leaves the other counts alone |
| Compliance.CostRelations | app.js:181-194 | annual is 12 × monthly and equals the lost hours priced at the hourly cost; lost hours are 12·hours·staff; students affected is the floor of lost hours / 4 |
| Compliance.CostNonNegative | app.js:181-194 | non-negative inputs give non-negative figures |
| Compliance.CostExample | app.js:181-194 | (10, 5, 500) gives 25,000, 300,000, 600 and 150 |
| Compliance.NewInspection | app.js:197-202 | the experience keeps the caller's fields, with a generated id the caller may override and a forced submitted date |
| Compliance.AddInspectionExperience | app.js:204 | the experience is appended and the old ones are unchanged |
| Proposals.GenerateFromTemplate | app.js:237-248 | `null` exactly for an unknown key. Otherwise customizations override template fields, while id, created date and status `draft` override both; template fields not customized survive |
| Proposals.KnownTemplates | app.js:217-239 | a template key resolves exactly when it is one of the three names, and an uncustomised template keeps its title |
| Proposals.NewProposal | app.js:250-257 | a saved proposal is a `draft` with one supporter whatever the caller passed, plus its other fields |
| Proposals.SaveProposal | app.js:259 | the proposal is appended and the old ones are unchanged |
| Search.OptionalFieldIncludes | app.js:273-274 | a missing or null field is no match; a string field is matched case-insensitively; any other value throws |
| Search.SearchMembersSound | app.js:272-275 | on well-formed members the search returns a subsequence of the list. Each member whose institution name or state contains the term appears as many times as in the list, and no other member appears |
| Search.SearchMembersLength | app.js:272-275 | the member result is never longer than the member list |
| Search.SearchAll | app.js:267-282 | succeeds exactly when both searches do, with the post and member results and `total` their combined length |
| Search.SearchAllSound | app.js:267-282 | on well-formed data the combined search succeeds. The posts and the members are each the filtered subsequence of their source, keeping every match with its multiplicity and nothing else, and the total is at most the number of records |
| Notifications.AddNotification | app.js:291-302 | the notification goes in front, unread, with the given type and message, the importance defaulting to `normal`, and nothing else |
| Share.ReachIncrement | whatsapp-integration.js:412 | the reach estimate for a draw in [0, 1) is the k with k − 10 ≤ 20·draw < k − 9, and so lies between 10 and 29 |
| Share.ReachIncrementOnto | whatsapp-integration.js:412 | every estimate from 10 to 29 is produced by some draw |
| Share.TrackShare | whatsapp-integration.js:408-418 | starting from the stored stats or zeros, shares rise by exactly 1, reach by the increment the draw determines (10 to 29), groups are unchanged; a refused write keeps the stored stats |
| Share.FirstShare | whatsapp-integration.js:399-413 | with nothing stored the first share yields 1 share, 0 groups and a reach equal to the drawn increment, 10 to 29 |
| Share.ShareCoalitionCounts | whatsapp-integration.js:584-597 | the member count is the number of members, or 12 if none; the state count is the number of distinct states as `updateStats` counts them, or 8 if none, never more than the member count; educators are 3× and students 150× the member count |
| Share.RoleGroupName | whatsapp-integration.js:675-684 | the group name is one of the five labels: the table's entry for the role, or `Educators` for any role outside it or for a guest |
| Share.RoleGroups | whatsapp-integration.js:677-684 | guests and admins get `Educators`, and the four named roles get four different labels, none of them `Educators` |
| Share.GuestFallbacks | whatsapp-integration.js:457-458 | after logout the note is empty, the institution is `Your Institution`, the state `Your State` and the group `Educators` |
| Share.LoginNamesUser | whatsapp-integration.js:617-649 | after a login the institution and state groups, the invitation note and the role group use the logged-in account's fields |

## Left out

- DOM construction, CSS, modals, notification display and its five-second dismissal timer, `location.reload`: user interface with nothing to state.
- `openWhatsApp` (`encodeURIComponent`, `window.open`) and the text of every share message: browser calls and static text.
- `JSON.stringify` / `JSON.parse`: storage holds JSON values directly, and serialization of this JSON subset is taken to be lossless. The raw text medium and parse failures are not modelled.
- JSON numbers are integers. The compliance calculator works over exact reals, not IEEE doubles. `parseFloat` input parsing is left out.
- `Date.now()`, `toISOString()` and `Math.random()` are parameters rather than clocks and randomness.
- `saveUsers` and `setCurrentUser` have no error handling. A storage failure there, which would throw after the in-memory directory has changed, is not modelled; the directory and session are the in-memory state.
- `loadUsers` / `getCurrentUser` reading the directory and session back at start-up are not modelled separately; `PlatformStorage.CollectionRoundTrip` states the corresponding round trip for collections.
- Text.Utf16: a Dafny `string` holds only Unicode scalar values, so the lone surrogates a JavaScript string can contain are outside the model.
- Text.Lower: `toLowerCase` is modelled for ASCII and Latin-1 upper-case letters only; other Unicode case mappings are not.
- Forum.FindPost: ids are matched as numbers only. The coercing `==` on string, boolean or array ids is not modelled (`[5] == 5` holds in JavaScript), because this code only ever renders numeric ids into its buttons.
- Forum.Bump: an array or object counter returns the error `NotModelled`. JavaScript's `+` would first turn it into text through `toString`, and the model does not render arrays or objects as text.
- Forum.AddReactionEffect: a `reactions` field holding an array returns the error `NotModelled`, so such a post is outside the "succeeds exactly when" clause. JavaScript would set a property on the array, and that property would be dropped when the array is stored as JSON.
- Property names inherited from `Object.prototype` are not modelled. Examples are `users["constructor"]`, `templates["toString"]` and `roleNames["valueOf"]`; JavaScript finds these truthy. Likewise a reaction named `__proto__` reaches an inherited setter instead of an own property.
- Auth.Login: the session is a snapshot of the profile. In the source the session's `posts` array is shared with the stored account until the page reloads; that aliasing is not modelled.
- Posting.CreditPost: the model leaves the session unchanged, but in the source `user.posts.push` also reaches the session's `posts` array, which is shared with the stored account in the same page. The session's score is not refreshed in either.
- Coalition.DistinctStates: states are compared by value, whereas a JavaScript `Set` compares object-valued states by identity. States are strings in practice.
- Search.SearchAll: the source reloads posts and members from storage on each call. The model takes the loaded collections.
- Share.ShareCoalitionCounts: the model takes the parsed member list; unparseable stored members are not modelled.
- Share.TrackShare: stored stats are taken to have numeric fields. The `type` argument is unused in the source.
- The seeded forum posts and inspections (`getDefaultPosts`, `getDefaultInspections`) are static content and are not part of the model.
- The unused `meetings`, `compliance_costs` and `post_reactions` collections are left out.
- The older `submitPost` in app.js is left out; `enhancedSubmitPost` replaces it.
- The weekly urgent-alert toggle in `checkForUrgentCampaigns` is left out.
- Cross-tab races are left out: the code is single-threaded and has no concurrency control.

## Findings

| source | as written | input that shows it | evidently intended | confidence | as-written member | corrected member |
|---|---|---|---|---|---|---|
| auth.js:62 | the duplicate test reads `this.users[email]` with the email as typed, but accounts are stored and looked up under `email.toLowerCase()` | with "a@b" registered, `register` with email "A@b" passes the test and overwrites the stored account, losing its posts and activity | test `this.users[email.toLowerCase()]`, so that email uniqueness is case-insensitive | high; not executed | Auth.RegisterReplacesAccount | Auth.RegisterNormalized |
