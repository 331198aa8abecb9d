# Gaming chat: session and message model

This project models the session-and-message logic of the chat page `Index`
(`src/pages/Index.tsx`). A visitor picks a nickname. Login trims it, turns it
into an identity whose admin flag says whether the lower-cased nickname
contains "admin", and saves that identity under the `chatUser` key of local
storage. The next visit resumes it from there. A signed-in visitor appends
trimmed, non-empty lines to a log that starts with two example lines.
Logout forgets the identity and removes the stored record.

The project has three modules:

- `Text` (`text.dfy`): the string primitives the page calls. These are
  `trim` (with the ECMAScript whitespace set), `toLowerCase` (ASCII letters
  only), `includes`, and `toString` for the clock readings that become ids.
  Each one has a specification and the lemmas the page needs. The main
  lemma says that trimming cannot change whether a whitespace-free word
  occurs in the lower-cased text.
- `ChatModel` (`chat_model.dfy`): the page's state as a value. This covers
  the session user, the nickname field, the log, the message field and the
  stored record. It has one transition function per handler (`Restore`,
  `TypeName`, `Login`, `TypeMessage`, `Send`, `Logout`) and `Run` for a
  sequence of events. It also holds the invariant `Valid` and the lemmas
  about several handler runs: append-only log, attribution, ordering,
  reload round trip and idempotent logout.
- `ChatSession` (`chat_session.dfy`): the component as a class `Index`. Its
  fields are the state hooks plus the stored record. Its methods update the
  fields in place, as the handlers do. Each method is proved to move
  `Snapshot()` exactly as the matching `ChatModel` function does.

Clock readings are parameters. `Date.now()` becomes `clock: nat` and
`new Date()` becomes `at: Time`. Local storage is the `store` field.

Some behaviours of the code are easy to misread:

- A stored record is restored with `JSON.parse` and no check
  (src/pages/Index.tsx:41-46). Malformed data is not treated as "no
  identity", and a restored record is used as it is. `Valid` therefore
  assumes that the stored record is one that login could have made.
- Ids are `Date.now().toString()` (src/pages/Index.tsx:52, 67). They are not
  unique. Two lines sent in the same millisecond share an id
  (`MessageIdsFollowClock`, `SendTwiceInOrder`).
- The admin flag is computed from the untrimmed input
  (src/pages/Index.tsx:54). The name it is stored with is trimmed. The two
  agree (`AdminFlagIgnoresPadding`).
- The seed author `PlayerOne` is marked admin by hand, but the admin rule
  does not hold of that name (`SeedAdminIsNotByRule`). So the seed lines are
  not bound by the author invariant. Only lines sent during the session are
  (`RunPreservesValid`).

## Model

| member | source | states |
|---|---|---|
| Text.Trim | src/pages/Index.tsx:50-53 | the result is what lies between a whitespace run at the front and one at the back, has no whitespace at either end, and is empty exactly when the input is all whitespace |
| Text.TrimUnique | src/pages/Index.tsx:53 | any split into whitespace, a core with no whitespace at its ends, and whitespace has that core as its trim |
| Text.TrimIdempotent | src/pages/Index.tsx:53 | trimming an already trimmed name changes nothing |
| Text.Lower | src/pages/Index.tsx:54 | same length as the input, no ASCII capital left in the result, each ASCII capital replaced by its lower-case letter and every other character kept |
| Text.LowerSlice | src/pages/Index.tsx:54 | lower-casing works character by character: it commutes with slicing and leaves whitespace as it is |
| Text.Contains | src/pages/Index.tsx:54 | true exactly when the pattern occurs at some index of the text |
| Text.ContainsFrom | src/pages/Index.tsx:54 | the search from index i succeeds exactly when the pattern occurs at some index from i on |
| Text.ContainsLowerIgnoresPadding | src/pages/Index.tsx:53-54 | for a pattern with no whitespace, searching the lower-cased raw text and the lower-cased trimmed text give the same answer |
| Text.NatToDecimal | src/pages/Index.tsx:52 | the id of a clock reading is a non-empty string of digits with no leading zero |
| Text.DecimalRoundTrip | src/pages/Index.tsx:52 | reading an id back as a number gives the clock reading it came from |
| Text.DecimalInjective | src/pages/Index.tsx:67 | two clock readings give the same id exactly when they are equal |
| ChatModel.IsAdminName | src/pages/Index.tsx:54 | the admin rule holds exactly when "admin" occurs somewhere in the lower-cased name |
| ChatModel.AdminFlagIgnoresPadding | src/pages/Index.tsx:53-54 | the admin rule gives the same answer on the raw nickname and on the trimmed name that is stored |
| ChatModel.AdminExampleYes | src/pages/Index.tsx:54 | "SuperAdmin99" satisfies the admin rule |
| ChatModel.AdminExampleNo | src/pages/Index.tsx:54 | "GamerX" does not satisfy the admin rule |
| ChatModel.SeedMessages | src/pages/Index.tsx:25-38 | two lines, stamped with the two times given, each with trimmed non-empty text; the first by PlayerOne flagged admin, the second by GamerX not flagged |
| ChatModel.Initial | src/pages/Index.tsx:22-39 | the first render: no user, both input fields empty, the seed log, and local storage as found |
| ChatModel.Restore | src/pages/Index.tsx:41-46 | with a stored record the session user becomes that record, without one the user is unchanged; storage, log and inputs are unchanged |
| ChatModel.TypeName | src/pages/Index.tsx:99 | the nickname field holds the typed text; user, storage, log and message field are unchanged |
| ChatModel.TypeMessage | src/pages/Index.tsx:191 | the message field holds the typed text; user, storage, log and nickname field are unchanged |
| ChatModel.Login | src/pages/Index.tsx:48-61 | whitespace-only nickname: nothing changes; otherwise user and stored record are both the new identity (clock id, trimmed name, admin flag of the trimmed name), that identity is well-formed, the nickname field is cleared and nothing else changes |
| ChatModel.LoginExampleAdmin | src/pages/Index.tsx:51-55 | logging in as "  SuperAdmin99 " gives the identity named "SuperAdmin99" with the admin flag set |
| ChatModel.LoginExampleNotAdmin | src/pages/Index.tsx:51-55 | logging in as "GamerX" gives an identity without the admin flag |
| ChatModel.Send | src/pages/Index.tsx:63-75 | whitespace-only text or nobody signed in: nothing changes; otherwise the log grows by exactly one line at its end, the old lines are untouched, the new line holds the trimmed text, the session user, the clock id and the time, and only the message field is otherwise changed (to empty) |
| ChatModel.Logout | src/pages/Index.tsx:77-80 | user and stored record become absent; the log and both input fields are unchanged |
| ChatModel.LogoutIdempotent | src/pages/Index.tsx:77-80 | signing out twice is the same as signing out once |
| ChatModel.ReloadRestoresSession | src/pages/Index.tsx:41-46 | after a successful login, a new page whose mount effect reads the stored record is signed in as the same identity; after a logout it is anonymous |
| ChatModel.MountedSessionMatchesStore | src/pages/Index.tsx:41-46 | in a valid state, after the mount effect the session user equals the stored record, and running the effect again changes nothing |
| ChatModel.FreshStart | src/pages/Index.tsx:25-38 | with nothing stored, the page starts anonymous with exactly the two seed lines, by PlayerOne (admin) and GamerX (not admin) |
| ChatModel.SeedAdminIsNotByRule | src/pages/Index.tsx:29 | the seed author PlayerOne has the admin flag set although the admin rule does not hold of the name |
| ChatModel.Step | src/pages/Index.tsx:41-80 | one handler run: only a send changes the log, and only login and logout change local storage |
| ChatModel.Run | src/pages/Index.tsx:41-80 | a sequence of handler runs with no send leaves the log as it was, and one with no login or logout leaves local storage as it was |
| ChatModel.InitialValid | src/pages/Index.tsx:22-39 | the first render is valid whenever local storage is empty or holds a record that login could have made |
| ChatModel.StepPreservesValid | src/pages/Index.tsx:41-80 | every handler keeps the invariant (signed-in user equals the stored record, which is well-formed; every line's text is trimmed and non-empty), and any line it adds has a well-formed author |
| ChatModel.RunPreservesValid | src/pages/Index.tsx:41-80 | any sequence of handler runs keeps the invariant, and every line added along the way has a well-formed author |
| ChatModel.StepAppendOnly | src/pages/Index.tsx:72 | no handler shortens or changes the existing log |
| ChatModel.RunAppendOnly | src/pages/Index.tsx:72 | after any sequence of handler runs, the old log is an unchanged prefix of the new one |
| ChatModel.AttributionSurvivesRelogin | src/pages/Index.tsx:66-80 | after logout, a new nickname, a login and anything later, every earlier line keeps the author (name and admin flag) it was sent with |
| ChatModel.SendTwiceInOrder | src/pages/Index.tsx:63-75 | two sends in a row append their two lines in sending order, whatever the clock reads, and equal clock readings give equal ids |
| ChatModel.MessageIdsFollowClock | src/pages/Index.tsx:67 | the ids of the line a send would append agree exactly when the clock readings agree |
| ChatSession.Index.constructor | src/pages/Index.tsx:22-39 | the first render's state: no user, empty inputs, the seed log, and local storage as found |
| ChatSession.Index.RestoreSavedUser | src/pages/Index.tsx:41-46 | the mount effect changes the fields exactly as `ChatModel.Restore` does |
| ChatSession.Index.SetUsername | src/pages/Index.tsx:99 | typing a nickname replaces the nickname field and nothing else |
| ChatSession.Index.SetNewMessage | src/pages/Index.tsx:191 | typing a message replaces the message field and nothing else |
| ChatSession.Index.HandleLogin | src/pages/Index.tsx:48-61 | the fields change exactly as `ChatModel.Login` says |
| ChatSession.Index.SendMessage | src/pages/Index.tsx:63-75 | the fields change exactly as `ChatModel.Send` says |
| ChatSession.Index.Logout | src/pages/Index.tsx:77-80 | the fields change exactly as `ChatModel.Logout` says |

## Left out

- ChatModel.InitialValid: the invariant `Valid` is proved only from a stored record that login could have made. The page restores whatever `chatUser` holds without a check (src/pages/Index.tsx:41-46). A hand-edited record such as `User("x", "Bob", true)` is restored as it is and then authors later lines, and that state lies outside `Valid`. The model allows this, as the page does, but promises nothing about such a session.
- Rendering (src/pages/Index.tsx:82-269): cards, badges, icons and layout carry no rules. The sidebar roster and its fixed counts are decoration and are not derived from state.
- `isRegistering` (src/pages/Index.tsx:23, 59) is written and never read, so it has no observable effect.
- `Date.now()` and `new Date()` are parameters (`clock`, `at`, `t1`, `t2`). `toLocaleTimeString` is display only. A clock before 1970 (a negative `Date.now()`) is not modelled.
- `JSON.stringify`/`JSON.parse` and the `localStorage` API are not modelled. The store is one `Option<User>` field. The exception `JSON.parse` throws on malformed data is not modelled. Neither is a stored empty string, which the `if (savedUser)` test would skip.
- Text.Lower: only ASCII letters are lower-cased, while `toLowerCase` covers all of Unicode. For the word "admin" this makes no difference to the admin rule: the only non-ASCII characters that lower-case to ASCII are U+0130, which gives "i" followed by U+0307, and U+212A, which gives "k", and neither can complete "admin".
- React scheduling (batched `setState`, when `useEffect` runs, StrictMode's double effect) is not modelled. Each handler is one atomic step. Handlers read the state as the previous step left it.
- The message log is not persisted, and several tabs sharing one stored record are not modelled.

