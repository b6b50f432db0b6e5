# Live-support chat: the backend-free store, in Dafny

The chat app reads and writes one shared JSON tree through a small facade:
`set`, `update`, `push` and `onValue`. When no realtime-database
configuration is present, that facade is a fallback built in
`lib/firebase.js`. The fallback keeps the whole tree as one record in browser
storage and posts every new tree to the other tabs over a broadcast channel.
Listeners are registered per exact path string. They are called once when
they subscribe, and again whenever a broadcast arrives from another tab.

This project models that fallback store and the login decision of
`pages/index.js`:

- `json.dfy` (`Json`): JSON values, JavaScript's `undefined`, truthiness, and
  property lookup. Objects have their own keys. Strings have `length` and
  index keys, counted in characters (see "Left out" for UTF-16). Numbers and
  booleans have no own keys.
- `results.dfy` (`Results`): the TypeErrors a write can raise.
- `paths.dfy` (`Paths`): `path.split('/').filter(Boolean)`, and how slashes
  are normalised away.
- `tree.dfy` (`Tree`): `getPath`, `setPath`, `updatePath` and `pushPath` as
  pure functions on trees, plus their read-back and frame properties.
- `listeners.dfy` (`Listeners`): the listener map (ordered like a JavaScript
  `Map`), subscribe and unsubscribe, and the fan-out when a broadcast
  arrives.
- `fallback.dfy` (`Fallback`): `readStore`, `writeStore`, `set`, `update`,
  `push` and `onValue` over the persisted record, plus end-to-end scenarios.
- `login.dfy` (`Login`): the passcode check and the routing choice of
  `submit`.

Behaviour the model follows from the code:

- **Reads.** A falsy cursor before a segment ends the read with `null`. A
  missing last key reads `undefined`.
- **Writes through a non-object.** `setPath` replaces a falsy intermediate
  with `{}` but enters any other value as it is. Module code is strict, so
  assigning a property to a primitive throws; that throw is `Err(PrimitiveTarget)`.
- **Empty path.** A path with no segments (`""`, `"/"`, ...) is written
  under the root key `"undefined"`; the root is not replaced. `push` at such
  a path assigns the root to its own `"undefined"` key. The circular tree
  then cannot be serialised (`Err(CircularSnapshot)`).
- **Unsubscribe.** The returned function removes every occurrence of the
  callback. On a path that was never registered it creates an empty list.
- **No self-notification.** A write never calls the writing tab's own
  listeners. The write functions do not even take the registry; they only
  return the persisted record and the posted messages.
- **Framing of `set`.** A path that diverges from the written path reads as
  before, with one exception: where the write replaced a falsy ancestor with
  `{}`, a `null` read may become `undefined`.

## Model

| member | source | states |
|---|---|---|
| `Paths.Split` | lib/firebase.js:48 | `split('/')` yields one more piece than there are slashes, and no piece contains a slash |
| `Paths.KeepNonEmpty` | lib/firebase.js:48 | `filter(Boolean)` yields only non-empty pieces, and a piece occurs in the result iff it is non-empty and occurs in the input |
| `Paths.KeepNonEmptyCounts` | lib/firebase.js:48 | `filter(Boolean)` keeps every non-empty piece as many times as it occurs and drops every empty one |
| `Paths.KeepNonEmptyAppend` | lib/firebase.js:48 | `filter(Boolean)` distributes over concatenation, so the survivors keep their order |
| `Paths.Segments` | lib/firebase.js:58 | every segment a path helper walks is non-empty and slash-free |
| `Paths.JoinSplit` | lib/firebase.js:48 | splitting loses nothing: rejoining the pieces with `/` restores the string |
| `Paths.SegmentsAround` | lib/firebase.js:48 | the segments of `a/b` are those of `a` followed by those of `b` |
| `Paths.SlashesCollapse` | lib/firebase.js:58 | leading, trailing and doubled slashes give the same segments |
| `Paths.OnlySlashes` | lib/firebase.js:47-48 | the empty string and strings of slashes address the root |
| `Paths.SegmentsOfJoin` | lib/firebase.js:48 | parsing a slash-joined list of proper segments gives the list back |
| `Tree.WalkAppend` | lib/firebase.js:49-54 | reading `a` then `b` from the result is the same as reading `a+b` |
| `Tree.AbsentPrefixReadsNull` | lib/firebase.js:50-51 | reading never fails; a missing or falsy proper prefix makes the read `null` |
| `Tree.MissingKeyReadsUndefined` | lib/firebase.js:52-54 | a key missing from the object at the end of the path reads `undefined` |
| `Tree.RootRead` | lib/firebase.js:47 | an empty or slash-only path reads the whole tree |
| `Tree.EmptyNodeReadsNullish` | lib/firebase.js:50-54 | below `{}` every non-empty path reads `null` or `undefined` |
| `Tree.EmptyNodeWritable` | lib/firebase.js:60-64 | a fresh `{}` accepts a write at any non-empty path |
| `Tree.WriteAtSpec` | lib/firebase.js:57-66 | setPath succeeds iff the root is an object and every proper prefix reads an object or a falsy value; reading the path back then gives the value |
| `Tree.WriteAtFrame` | lib/firebase.js:57-66 | a path diverging from the written one reads as before, or read `null` and now reads `null`/`undefined` |
| `Tree.UpdateSpec` | lib/firebase.js:68-72 | updatePath succeeds where setPath does. The result has the payload's keys with the payload's values. Other keys of an existing object keep their old values. An absent or falsy old value counts as `{}` |
| `Tree.UpdateTwice` | lib/firebase.js:68-72 | after two merges the second payload wins on shared keys, the first payload's other keys keep its values, and original keys named by neither payload keep their old values; nothing else appears |
| `Tree.NodeReadMeansWritable` | lib/firebase.js:46-55 | if a path reads an object, every ancestor on it is an object, so setPath can write there |
| `Tree.PushSpec` | lib/firebase.js:74-80 | pushPath succeeds iff the path is writable and its value is an object or falsy. The object there then maps the id to the value and keeps its other entries |
| `Tree.PushAtRootFails` | lib/firebase.js:74-80 | push with no segments always fails: on a primitive root pushPath's assignment throws; on an object root pushPath returns a tree holding itself under "undefined", whose serialisation then throws |
| `Listeners.Put` | lib/firebase.js:88 | `Map.set` replaces one path's list, keeps every other list, and keeps keys unique and ordered |
| `Listeners.Without` | lib/firebase.js:94 | the filter removes every occurrence of the callback and keeps every other callback's multiplicity |
| `Listeners.Subscribe` | lib/firebase.js:86-88 | subscribing appends the callback to its exact path's list; other paths are unchanged |
| `Listeners.Unsubscribe` | lib/firebase.js:92-95 | unsubscribing removes the callback from its path only; other callbacks and paths are untouched |
| `Listeners.UnsubscribeIdempotent` | lib/firebase.js:92-95 | calling the unsubscribe function twice is the same as calling it once |
| `Listeners.SubscribeThenUnsubscribe` | lib/firebase.js:84-95 | subscribing a new callback and then unsubscribing it restores the path's list |
| `Listeners.FanOut` | lib/firebase.js:38-41 | a broadcast invokes the registrations in map order, each with its own path read from the received store |
| `Listeners.Receive` | lib/firebase.js:35-43 | the handler's nested loops produce exactly the fan-out for an update message and nothing otherwise |
| `Listeners.NotifiedOncePerRegistration` | lib/firebase.js:38-40 | an update reaches each (path, callback) as many times as the callback is registered on the path |
| `Listeners.NotificationsShowReceivedStore` | lib/firebase.js:35-43 | every invoked callback is shown its own path's value in the received store; a message that is not an update reaches no one |
| `Listeners.RegistrationCount` | lib/firebase.js:38-40 | with unique keys, a registration occurs in the fan-out as often as in its path's list |
| `Fallback.ReadStore` | lib/firebase.js:18-25 | a missing or unreadable record reads as `{}`, a saved one as its tree |
| `Fallback.WriteStore` | lib/firebase.js:27-30 | a write persists the tree and posts exactly one update carrying it iff a channel exists |
| `Fallback.SetValue` | lib/firebase.js:105-110 | a successful set persists a tree and broadcasts only that tree |
| `Fallback.UpdateValue` | lib/firebase.js:112-117 | a successful update persists a tree and broadcasts only that tree |
| `Fallback.PushValue` | lib/firebase.js:98-103 | a successful push resolves with the given key and persists and broadcasts the new tree |
| `Fallback.OnValue` | lib/firebase.js:84-91 | onValue appends the callback under its exact path, leaves other paths alone, and invokes that callback once with the value currently stored at the path |
| `Fallback.SetThenRead` | lib/firebase.js:105-110 | set succeeds iff the stored tree is writable at the path; afterwards every spelling of the path, read or subscribed to, gives the value |
| `Fallback.SetAtEmptyPath` | lib/firebase.js:65 | set at a path without segments stores the value under root key "undefined" and keeps every other root key with its value |
| `Fallback.SetFrame` | lib/firebase.js:57-66 | set leaves diverging paths as they were, up to `null` becoming `undefined` under a replaced ancestor |
| `Fallback.UpdateThenRead` | lib/firebase.js:112-117 | update succeeds where set would and leaves the shallow merge at the path |
| `Fallback.PushThenRead` | lib/firebase.js:98-103 | push resolves with `{key: id}` and the path's object gains exactly that key, every other entry keeping its value; with no segments it throws |
| `Fallback.FreshStoreSubscription` | lib/firebase.js:90-91 | on an empty store, subscribers see `{}` at the root, `undefined` for a top-level key and `null` deeper |
| `Fallback.SetReachesOtherTabs` | lib/firebase.js:29 | a set's broadcast shows every listener of a receiving tab its path's value in the new tree, and the written value on the written path |
| `Fallback.AppendScenario` | lib/firebase.js:74-80 | one message pushed to an empty store is the only entry of `sessions/abc/messages` |
| `Fallback.TypingScenario` | lib/firebase.js:68-72 | merging `{u1:true}` then `{u1:false,u2:true}` leaves `{u1:false,u2:true}` |
| `Login.MatchDigitsExactly` | pages/index.js:24 | the anchored pattern `^[0-9]{n}$` accepts exactly the strings of n ASCII digits |
| `Login.Submit` | pages/index.js:22-32 | rejection with "Passcode must be 4 numeric digits" iff the passcode is not four digits. The host route `/host?user=dex` iff user `dex` with passcode `1982`. Otherwise chat with the given session and encoded user |
| `Login.FormatCheckedFirst` | pages/index.js:24-29 | a malformed passcode is rejected even for the host user; the credential check comes second |

## Left out

- The realtime-database SDK branch and its configuration detection (`lib/firebase.js` lines 2-8 and 124-161). It delegates to a library that is not part of this model.
- Browser storage I/O and JSON text. The record is a `Storage` value: missing, unreadable, or a saved tree. Text that fails to parse, or storage that throws, is `Unreadable`. Storage write failures (quota exceeded) are not modelled.
- The broadcast transport. A received message is an explicit input, and posted messages are an explicit output.
- Id generation for `push` and the random session id of `submit` (both clock/random based). Both are parameters. No uniqueness is claimed: the code does not guarantee it, and a repeated id overwrites the earlier entry.
- `encodeURIComponent` is a function parameter of `Login.Submit`.
- `onDisconnect` is a stub returning a no-op `cancel`. `ref(db, path)` returns the path. The facade takes the path string directly.
- Keys inherited from the object, string or number prototypes (`toString`, `constructor`, `__proto__`, ...) are treated as absent.
- `Json.Property`: string `length` and index keys count Dafny characters (Unicode scalar values), not UTF-16 code units as JavaScript does. For strings outside the Basic Multilingual Plane the length and the indices past such a character differ from the browser's.
- Numbers are integers. NaN, fractions and `-0` are not represented; only the falsiness of 0 matters here.
- Non-JSON values (functions, `undefined` as a stored value), arrays, and non-object `update` payloads (the payload is a map).
- `Fallback.UpdateValue`: requires that the existing value at the path is not a non-empty string. `Object.assign` would copy that string's characters in as index keys, and this model does not build that map.
- `Tree.UpdatePath`: same precondition as `Fallback.UpdateValue`, for the same reason.
- `Tree.WriteAtFrame`: states "unchanged, or `null` turned into `null`/`undefined`" rather than plain equality. A replaced falsy ancestor really does change a `null` read into `undefined`.
- Callback side effects, re-entrancy, and the order in which `onValue` calls its callback relative to later events. The model returns the invocations as data.
- The error message is only set on rejection and is never cleared on navigation. `Login.Submit` models the outcome of one submit, not the form state.
- React components, rendering, timers, presence handling and the view derivations in `components/ChatWindow.jsx`, `pages/host.js` and `pages/chat.js`.
- Subscribers on a path do not see every write to it. In the code, a tab's own writes never notify its own listeners; other tabs see them only through the broadcast. This model follows the code.
- A write at an empty path does not replace the whole tree. The code stores the value under the key `"undefined"` instead; this model follows the code (`Fallback.SetAtEmptyPath`).
