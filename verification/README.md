# Room-price admin panel and its session gate, in Dafny

This project models the two browser-side components of the Methods room-booking
site's administration area:

- **The price-table store** (`AdminPanel`, admin-panel.js). It keeps a table of
  prices: three rooms (`training`, `private`, `meeting`) × two time slots
  (`morning`, `evening`) × three tiers (`hourly`, `daily`, `monthly`). It stores
  the table in localStorage as three kinds of record:
  - a canonical record (`methodsRoomPrices`);
  - one mirror record per room (`<room>RoomPrices`);
  - a backup (`methodsRoomPricesBackup`).

  The modelled operations are:
  - opening the panel (load, welcome message, first backup);
  - reading the number inputs of the page (`parseInt(value) || 0`);
  - the single-room update;
  - the diff-based bulk save and auto-save;
  - reset to the defaults;
  - import, with its shape check, and export;
  - filling the inputs from the table.

  The canonical record, the room records and the export carry the admin's
  name (the backup does not), which `getAdminUsername` reads from the
  session slot `adminSession`. That read
  throws when the slot holds text `JSON.parse` rejects, or `null`. The model
  derives the name from storage and follows each operation's path when it
  throws.
- **The session gate** (`AdminAuth`, admin-auth.js). It covers:
  - the logged-in check, with expiry and lazy eviction of the stored session;
  - login, in this order: empty-field check, then the credential check against
    salted SHA-256 digests, then minting a 24-hour session with a random hex token;
  - logout;
  - the two-rule redirect policy.

Everything is a pure function over immutable data:

- `Storage` is a map from key to what `JSON.parse` makes of the stored text:
  the empty string, text that does not parse, or a JSON document.
- `Json` is a datatype whose numbers are `real`.
- The page's number inputs are a map from `Field(room, slot, tier)` to their
  current text.
- Things the browser would supply are parameters:
  - the clock reads (integers, in milliseconds);
  - the SHA-256 function;
  - the 32 random bytes;
  - the operator's confirmation;
  - whether the page has the welcome element.

Modules:

| module | file | what it holds |
|---|---|---|
| `Base` | base.dfy | `Option` |
| `JsonStore` | json_store.dfy | parsed JSON, JavaScript truthiness, property reads, localStorage |
| `Radix` | radix.dfy | digits and `Number.prototype.toString(radix)` for naturals |
| `Coerce` | coerce.dfy | `parseInt` (ECMAScript semantics) and the form coercion `parseInt(v) \|\| 0` |
| `Hex` | hex.dfy | `b.toString(16).padStart(2, '0')`, hex encoding and decoding of byte strings |
| `Utf8` | utf8.dfy | `TextEncoder.encode` and its inverse |
| `Prices` | prices.dfy | the table, the defaults, `validatePrices`, `validateImportedData`, `getRoomDisplayName`, the JSON shape of the table |
| `Persistence` | persistence.dfy | `getAdminUsername`, `savePriceData`, `updateRoomPages`, the backups, `loadPriceData` |
| `Panel` | panel.dfy | the operations driven by the page: opening, update, save-all, auto-save, reset, import, export, filling the inputs |
| `Auth` | auth.dfy | `isLoggedIn`, `handleLogin`, `validateCredentials`, `hashPassword`, `generateSessionToken`, `handleLogout`, `init` |

Three places where the code does something other than what its comments or
its evident purpose suggest; the model follows the code:

- **The bulk save can leave partial state.** One would expect a failed bulk
  save to leave the in-memory table as it was. But `saveAllChanges` replaces
  rooms one by one inside a `forEach`. When a later room's input is missing,
  `getElementById(..).value` throws. The same happens at the first changed
  room when the admin's name cannot be read, because `updateRoomPages` asks
  for it. The rooms already visited then keep their new entries (and, for a
  missing input, their rewritten page keys), while the canonical record is
  not saved. `Panel.SaveAllChanges` models this, visiting the rooms in the
  order `training`, `private`, `meeting` (see Left out).
- **Session length is not exactly one day.** The comment at
  admin-auth.js:59 announces a session with a 24-hour expiration. The code
  reads the clock twice (once for `loginTime`, once for `expiresAt`), so
  `Auth.HandleLogin` takes two clock values and the expiry is 24 hours after
  the second one.
- **Load does not check the table's shape.** The comment at
  admin-panel.js:71 says the defaults are returned when there is no saved
  data. A saved record with a truthy `version` and a truthy `prices` of any
  shape is returned as the table (see Findings).

## Model

| member | source | states |
|---|---|---|
| `Prices.DefaultPrices` | admin-panel.js:75-89 | the default table fills every room, slot and tier with a non-negative price; two sample leaves have the listed values |
| `Prices.ValidatePrices` | admin-panel.js:235-246 | true exactly when all six leaves of the room are at least zero; form values are never NaN, so that is the only failure |
| `Prices.AllNonNegative` | admin-panel.js:237-245 | the loop over the leaves succeeds exactly when every leaf is at least zero |
| `Prices.GetRoomDisplayName` | admin-panel.js:502-509 | the three room keys get their display names; a name every object literal inherits from `Object.prototype` finds that inherited member; any other key is returned unchanged |
| `Prices.DisplayedAs` | admin-panel.js:502-509 | a key is shown under a room's display name exactly when it is that room's key or that very display name, so the three rooms are told apart |
| `Prices.RoomOfName` | admin-panel.js:451 | exactly the three required room names denote a room, and each maps back to its name |
| `Prices.TiersValid` | admin-panel.js:459-463 | the innermost import loop accepts exactly when every required tier holds a non-negative number |
| `Prices.SlotsValid` | admin-panel.js:457-464 | the slot loop accepts exactly when every required slot passes |
| `Prices.RoomsValid` | admin-panel.js:455-466 | the room loop accepts exactly when every required room passes |
| `Prices.TiersValidIff` | admin-panel.js:459-463 | a slot passes the tier loop exactly when it reads as three tier prices, each at least zero |
| `Prices.SlotsValidIff` | admin-panel.js:457-464 | a room passes the slot loop exactly when it reads as a room whose six prices are at least zero |
| `Prices.RoomOkIff` | admin-panel.js:451-465 | a required room passes exactly when it is present, reads as a room, and has no negative price |
| `Prices.ValidateImportedData` | admin-panel.js:450-467 | `validateImportedData`; its contract is stated by `Prices.ValidateImportedIff`: it accepts exactly the JSON that reads as a complete table whose every leaf is a non-negative number |
| `Prices.ValidateImportedIff` | admin-panel.js:450-467 | `validateImportedData` accepts exactly the JSON that reads as a complete table whose every leaf is a non-negative number |
| `Prices.ValidateOwnTable` | admin-panel.js:450-467 | a table written as JSON passes the import check exactly when it is valid |
| `Prices.TiersJsonRoundTrip` | admin-panel.js:250-251 | the JSON form of one slot's tier prices reads back as those prices |
| `Prices.RoomJsonRoundTrip` | admin-panel.js:250-251 | the JSON form of a room reads back as that room |
| `Prices.TableJsonRoundTrip` | admin-panel.js:250-251 | the JSON form of a table reads back as the same table |
| `Coerce.ParseInt` | admin-panel.js:119 | `parseInt` without a radix; its contract is stated by `Coerce.ParseIntShape` (blank text is NaN, a decimal digit not opening `0x` yields a non-negative integer, only a leading minus a negative one) and `Coerce.LeadingWhiteSpaceIgnored` |
| `Coerce.TrimStart` | admin-panel.js:119 | `parseInt` skips exactly the leading white space: the result is a suffix, starts with a non-space, and everything dropped is white space |
| `Coerce.DigitPrefix` | admin-panel.js:119 | `parseInt` reads the longest prefix of digits in the radix |
| `Coerce.ParseIntShape` | admin-panel.js:119 | `parseInt` of blank text is NaN; a decimal digit after the white space, not opening `0x`, always yields a non-negative integer; only a leading minus sign yields a negative one |
| `Coerce.UnsignedShape` | admin-panel.js:119 | after the sign, no text is NaN, a decimal digit not opening `0x` is always read, and the value is negative only under a minus sign |
| `Coerce.LeadingWhiteSpaceIgnored` | admin-panel.js:119 | white space in front of an input never changes what `parseInt` reads |
| `Coerce.TrimWhiteSpace` | admin-panel.js:119 | trimming skips any white-space prefix, whatever follows it |
| `Coerce.CoerceField` | admin-panel.js:119-126 | `parseInt(v) \|\| 0`: NaN and 0 give 0, any other parse gives the parsed integer, and the result is always a whole number |
| `Coerce.DecimalFieldRoundTrip` | admin-panel.js:119 | the decimal text of a natural number parses, and coerces, back to that number |
| `Coerce.NegativeField` | admin-panel.js:119 | a minus sign followed by decimal digits parses to the negative value |
| `Coerce.NegativeParses` | admin-panel.js:119 | `parseInt` of a minus sign followed by the decimal digits of n is -n |
| `Coerce.ParseNegative` | admin-panel.js:119 | a leading minus sign is stripped and makes the parsed value negative |
| `Coerce.FractionIgnored` | admin-panel.js:119 | `parseInt` stops at the decimal point: "n.fraction" parses to n |
| `Coerce.EmptyFieldIsZero` | admin-panel.js:119 | an empty or non-numeric input coerces to 0 |
| `Coerce.ParseDigits` | admin-panel.js:119 | digits followed by a non-digit parse to their value, with the sign applied |
| `Coerce.DigitPrefixOfDigits` | admin-panel.js:119 | the digit scan stops exactly at the first non-digit |
| `JsonStore.Member` | admin-panel.js:499 | a property read yields a value exactly when the parsed value is an object with that key, and then it is that key's value; strings, numbers, arrays and `null` give `undefined` |
| `JsonStore.FalsyValues` | admin-panel.js:499 | the falsy JSON values are exactly `null`, `false`, `0` and the empty string; a property read is present exactly when it yields a truthy value |
| `JsonStore.RemoveItem` | admin-auth.js:126 | `removeItem` deletes that key and leaves every other key as it was |
| `Persistence.AdminUsername` | admin-panel.js:497-500 | the name throws exactly when the session slot holds text `JSON.parse` rejects, or `null`; otherwise it is the session's truthy `username`, or `"Admin"` when there is none |
| `Persistence.NameUnaffected` | admin-panel.js:497-500 | writes that leave the session slot alone leave the admin's name alone |
| `Persistence.LoginNamesEditor` | admin-auth.js:60-67 | after a login the name the panel writes is the one typed at login; after a logout it is `"Admin"` |
| `Persistence.MirrorKey` | admin-panel.js:270 | each room's mirror key is its name followed by `RoomPrices` |
| `Persistence.UpdateRoomPage` | admin-panel.js:283-294 | throws exactly when the name cannot be read; otherwise that room's page key holds the room's prices with the name, and nothing else changes |
| `Persistence.WriteMirrors` | admin-panel.js:262-271 | every room's mirror holds that room's prices; no other key changes |
| `Persistence.UpdateAllRoomPages` | admin-panel.js:225-228 | the page-key loop throws exactly when the name cannot be read, before writing anything; otherwise it writes what the save's own room loop writes |
| `Persistence.CreateBackup` | admin-panel.js:366-380 | the backup key holds the current table and version; no other key changes |
| `Persistence.CreateInitialBackup` | admin-panel.js:382-386 | the backup is written only when none exists; no other key changes |
| `Persistence.WritePriceData` | admin-panel.js:258-274 | with the name in hand, the canonical record, each room's mirror and the backup are written; no other key changes |
| `Persistence.SavePriceData` | admin-panel.js:248-281 | when the name cannot be read the `catch` swallows the error and nothing is written; otherwise every price key is written under that name; no other key changes, and the name stays readable |
| `Persistence.SaveOverwrites` | admin-panel.js:258-274 | the earlier contents of the written keys make no difference to the result |
| `Persistence.SavedKey` | admin-panel.js:258-274 | each key the save writes ends with the same value whatever it held before |
| `Persistence.SaveAfterPages` | admin-panel.js:189-197 | page keys written before a save make no difference to what it leaves, when the name can be read |
| `Persistence.PagesAfterSave` | admin-panel.js:353-359 | rewriting the room pages right after a save throws exactly when the name cannot be read, and otherwise changes nothing |
| `Persistence.LoadPriceDataAsWritten` | admin-panel.js:58-73 | the stored `prices`, whatever their shape, when the record parses with truthy `version` and `prices`; in every other case exactly the defaults |
| `Persistence.LoadPriceData` | admin-panel.js:58-73 | the load always yields a valid table: the stored one when it passes the import check, the defaults otherwise |
| `Persistence.SaveThenLoad` | admin-panel.js:58-73 | what a save writes, load reads back (the table itself when it is valid); a save without a readable name leaves the old record |
| `Persistence.LoadRecord` | admin-panel.js:58-73 | the canonical record of any table loads as that table's JSON, and as the table itself exactly when it is valid |
| `Persistence.LoadAcceptsShapelessPrices` | admin-panel.js:63-64 | a stored record whose `prices` is a bare number passes the load test as written |
| `Panel.ReadTiers` | admin-panel.js:119-121 | one slot's prices exist exactly when its three inputs are on the page, and each is its input coerced |
| `Panel.ReadRoom` | admin-panel.js:117-128 | a room's prices can be read exactly when all six inputs are on the page; a missing one throws |
| `Panel.ReadRoomValues` | admin-panel.js:117-128 | every price read from a complete page is its own input coerced, hence a whole number |
| `Panel.OpenPanel` | admin-panel.js:1-16 | opening yields a valid table; when `init` throws before the first backup it leaves storage unchanged. It throws when filling the inputs meets a `null` in the accepted stored prices, or when the welcome message throws: an unparsable session; with the welcome element present, a `null` session or a username whose text cannot be formed. Otherwise storage changes at most by a first backup |
| `Panel.StoredRecordLoads` | admin-panel.js:58-73 | a record with a truthy version and truthy prices under the canonical key loads as those prices |
| `Panel.AcceptedFillStopsInit` | admin-panel.js:10-15 | a stored record whose prices the load accepts but the fill throws on opens on the stored table with storage unchanged, whatever the backup slot holds |
| `Panel.NullSlotRecordStopsInit` | admin-panel.js:10-15 | a stored table with an extra `null` slot is loaded as that table, and the fill throws before the first backup, so storage is unchanged |
| `Panel.ObjectNameStopsInit` | admin-panel.js:469-475 | a session whose username is an object with its own `toString` key gives a readable name, yet with the welcome element present `init` stops before the first backup |
| `Panel.OpenAfterSave` | admin-panel.js:6 | a panel opened on what was saved shows the saved table when the name was readable, and opens as before the save otherwise |
| `Panel.UpdateRoomPrices` | admin-panel.js:115-148 | updated exactly when all six inputs are present and non-negative and the name is readable; then only that room changes and storage reads back as the new table. A missing or negative input changes nothing. An unreadable name replaces the room in memory but writes nothing |
| `Panel.SweepRooms` | admin-panel.js:171-194 | the room loop completes only when every visited room has its inputs, and always does then unless it writes page keys without a readable name. Rooms it does not visit keep their entries. With no change, nothing is written. It only writes page keys, and none without the name |
| `Panel.SweepMerges` | admin-panel.js:185-192 | a completed loop leaves each visited room at its candidate: the page's prices when they are valid, otherwise the current entry, also when a room is visited twice |
| `Panel.SweepReportsChange` | admin-panel.js:185-196 | a completed loop reports a change exactly when some visited room's candidate differs from its entry |
| `Panel.SweepBetween` | admin-panel.js:185-192 | complete or not, the loop leaves every room at its entry or its candidate |
| `Panel.SweepNeedsName` | admin-panel.js:187-189 | without a readable name the writing loop completes exactly when every room is readable and none would change; stopped on a readable page, it has replaced a room |
| `Panel.SweepKeepsValid` | admin-panel.js:185-188 | the room loop never makes a valid table invalid |
| `Panel.RoomsReadable` | admin-panel.js:171-183 | every room of the table can be read exactly when the page is complete |
| `Panel.MergeUnchanged` | admin-panel.js:185-192 | the merge keeps the table exactly when no room's candidate differs from its entry |
| `Panel.SweepCompletes` | admin-panel.js:171-194 | over the table's rooms the loop completes exactly on a complete page, except when it must write page keys without a readable name and some room changes; a loop stopped that way has replaced a room |
| `Panel.SweepIsMerge` | admin-panel.js:171-194 | on a complete page, unless page keys must be written without a readable name while something changes, the loop over the table's rooms yields the merged table and reports a change exactly when the merge differs from the table |
| `Panel.SweepCoversMerge` | admin-panel.js:171-194 | a completed loop that visits every room yields the merged table |
| `Panel.SweepChangeIsMerge` | admin-panel.js:185-196 | a completed loop over the table's rooms reports a change exactly when the merge differs from the table |
| `Panel.MergeFromBetween` | admin-panel.js:185-188 | a table whose every room holds its entry or its candidate has the same merge |
| `Panel.SaveAllChanges` | admin-panel.js:166-211 | fails exactly on an incomplete page, or when the name cannot be read and something would change; saves exactly when the page is complete, the name readable and something changed; otherwise yields the merge. "No changes" writes nothing; without the name nothing is written at all. Validity is preserved |
| `Panel.SaveAllFailure` | admin-panel.js:171-205 | a failed save-all touched only page keys and left each room at its entry or its candidate; on a complete page it replaced a room before stopping |
| `Panel.AutoSave` | admin-panel.js:324-364 | the copy is adopted exactly when the page is complete and something changed, and then is the merge; otherwise nothing changes. Storage reads back as the copy when the name is readable and is untouched when it is not |
| `Panel.MergeSettles` | admin-panel.js:185-188 | merging the same page twice changes nothing the second time |
| `Panel.AutoSaveSettles` | admin-panel.js:327-353 | a second auto-save with the same inputs is a no-op |
| `Panel.SaveAllSettles` | admin-panel.js:185-201 | with a readable name a second save-all with the same inputs reports no changes and writes nothing; without it storage stays put, the merge aimed at does not move, and the table changes exactly when the merge would |
| `Panel.SaveAllMatchesAutoSave` | admin-panel.js:171-197 | on a complete page save-all saves exactly when auto-save changes something and the name is readable, finds no changes exactly when auto-save does not, reaches the same state when the name is readable, and neither writes storage when it is not |
| `Panel.ReplaceTable` | admin-panel.js:216-228 | the table is replaced and saved, and the page-key loop gets through exactly when the name is readable |
| `Panel.ResetToDefaults` | admin-panel.js:213-233 | after confirmation the table is the default one; it is persisted, backup included, exactly when the name is readable, and storage is unchanged when the loop throws; without confirmation nothing changes; only the price keys are touched |
| `Panel.ImportData` | admin-panel.js:417-443 | an unparsable file, or one whose `prices` are missing or fail the shape check, is bad format. A valid one without confirmation is declined. A confirmed valid import replaces the table with the table the JSON denotes, and is persisted exactly when filling the inputs does not throw and the name is readable; otherwise it fails with storage unchanged |
| `Panel.OwnTableFills` | admin-panel.js:92-105 | filling the inputs never throws on the JSON of a table the panel holds |
| `Panel.NullSlotPassesCheck` | admin-panel.js:450-467 | the table with an extra `null` slot still passes the shape check and reads as the same table, but makes filling the inputs throw |
| `Panel.ImportFillThrows` | admin-panel.js:419-441 | a confirmed import that passes the shape check but makes the fill throw ends with the imported table in memory and storage as it was |
| `Panel.ImportWithNullSlotFails` | admin-panel.js:419-441 | importing a valid table with an extra `null` slot is accepted by the guard, then fails before saving, leaving storage as it was |
| `Panel.ExportData` | admin-panel.js:388-395 | the export fails exactly when the name cannot be read; otherwise it carries the table's JSON, the version and the exporting user |
| `Panel.ExportImportRoundTrip` | admin-panel.js:388-435 | an exported file imports, with confirmation, exactly when its table is valid and the importing panel's name is readable, and a valid table is then restored |
| `Panel.NumberTextReadsBack` | admin-panel.js:100 | a whole price written into an input reads back as itself through the coercion |
| `Panel.LoadCurrentPrices` | admin-panel.js:92-105 | filling the inputs adds and removes none, and every input then coerces back to its price |
| `Panel.DisplayReadsBack` | admin-panel.js:92-105 | reading a room right after filling the inputs yields the room's entry |
| `Panel.DisplayedPageIsClean` | admin-panel.js:92-105 | save-all and auto-save on freshly filled inputs find no changes |
| `Panel.DisplayedMergeIsIdentity` | admin-panel.js:92-105 | freshly filled inputs form a complete page, and merging that page into the table gives back the table |
| `Panel.DefaultsDisplayable` | admin-panel.js:75-89 | every default price can be shown in an input |
| `Panel.ResetLeavesCleanPage` | admin-panel.js:213-222 | after a confirmed reset the inputs show the defaults, and saving that page finds no changes |
| `Radix.ToRadix` | admin-auth.js:106 | `toString(radix)` is a non-empty string of lower-case digits of that radix |
| `Radix.ToRadixRoundTrip` | admin-auth.js:106 | the digits read back as the number; there is one digit exactly when the number is below the radix |
| `Hex.PadStart` | admin-auth.js:106 | `padStart` reaches the width, keeps the text at the end and fills only the front |
| `Hex.ByteToHex` | admin-auth.js:106 | each byte becomes exactly two lower-case hex digits |
| `Hex.ByteToHexIsPaddedToString` | admin-auth.js:106 | the two digits are `b.toString(16).padStart(2, '0')` |
| `Hex.ByteDigits` | admin-auth.js:106 | `toString(16)` of a byte has one digit below 16 and two from 16 on |
| `Hex.HexEncode` | admin-auth.js:106 | n bytes encode to 2n lower-case hex digits |
| `Hex.HexRoundTrip` | admin-auth.js:113 | the hex string decodes back to the bytes |
| `Hex.HexInjective` | admin-auth.js:113 | distinct byte strings give distinct hex strings |
| `Utf8.Encode` | admin-auth.js:102-103 | each character takes one to four bytes |
| `Utf8.DecodeEncode` | admin-auth.js:102-103 | the encoder's output decodes back to the string |
| `Utf8.EncodeInjective` | admin-auth.js:102-103 | distinct strings encode to distinct bytes |
| `Auth.HashPassword` | admin-auth.js:100-107 | the digest of the salted UTF-8 password as lower-case hex, two digits per digest byte, decodable back to the digest |
| `Auth.HashPasswordInjective` | admin-auth.js:100-107 | under a collision-free digest, equal hashes mean equal passwords |
| `Auth.GenerateSessionToken` | admin-auth.js:109-114 | 32 random bytes give 64 lower-case hex digits that decode back to the bytes |
| `Auth.ValidateCredentials` | admin-auth.js:80-98 | an unknown user name is always rejected; a listed user with the listed password is always accepted |
| `Auth.CredentialsExact` | admin-auth.js:89-97 | under a collision-free digest, exactly the listed pairs are accepted |
| `Auth.DemoAccountAccepted` | admin-auth.js:92-97 | `admin` / `12345` is accepted whatever the digest; an unlisted user is not |
| `Auth.ExpiryValue` | admin-auth.js:125 | the comparison sees a numeric `expiresAt` as its value; an object is NaN, and throws exactly when it has its own `toString` key |
| `Auth.IsLoggedIn` | admin-auth.js:116-135 | a missing or empty slot: not logged in, nothing removed. An unparsable or null session: removed. A session without a truthy token or expiry: not logged in, kept. A strictly expired session, or one whose expiry comparison throws: removed. Otherwise logged in, storage unchanged |
| `Auth.IsLoggedInSettles` | admin-auth.js:116-135 | asking twice at the same time gives the same answer and removes nothing more |
| `Auth.LoggedInEarlier` | admin-auth.js:125-130 | a session live at some time is live at every earlier time |
| `Auth.HandleLogin` | admin-auth.js:35-78 | an empty field fails before any credential check. Bad credentials fail. Both leave storage unchanged. Good ones store the token, the user name and an expiry 86,400,000 ms after the clock, touching nothing else |
| `Auth.SessionLifetime` | admin-auth.js:124-130 | after a login the session is live exactly up to and including its expiry instant; past it the check evicts it |
| `Auth.HandleLogout` | admin-auth.js:137-140 | the session slot is cleared and nothing else changes |
| `Auth.LogoutIdempotent` | admin-auth.js:137-140 | logging out twice equals logging out once, and nobody is logged in afterwards |
| `Auth.Contains` | admin-auth.js:9 | `includes` is true exactly when the text occurs at some position |
| `Auth.Init` | admin-auth.js:7-21 | only the login page can redirect to the panel and only the panel page to the login page; any other page stays; storage loses at most the session |
| `Auth.RedirectPolicy` | admin-auth.js:9-17 | with one clock value: logged in on the login page goes to the panel, logged out on the panel page goes to the login page, nothing else redirects |

## Left out

- Timing is not modelled: the DOM, button loading states, messages, `alert`,
  the `setTimeout` delays and the debounce of auto-save. Confirmation is a
  boolean input.
- The broadcast of price updates (`CustomEvent` and the delayed re-write of a
  room key) is not modelled. It is fire-and-forget notification; its final
  write equals the mirror `updateRoomPages` already made.
- Timestamps and ISO dates are not modelled: `lastUpdated`, `timestamp`,
  `backupDate`, `originalTimestamp` and `exportDate` are omitted from the
  records.
- The file download of the export and the `FileReader` of the import are not
  modelled; the import receives the parsed JSON, or `None` when it does not
  parse. Choosing no file returns before anything happens and is not modelled.
- The JSON text itself is not modelled: storage holds parsed documents, so a
  failed `setItem` (quota exceeded) and the `catch` it would reach in
  `savePriceData`, `createBackup` and `autoSave` are not modelled.
- `displayDataStats` only formats text for the page and catches its own
  errors. `displayWelcomeMessage` is modelled only through whether it
  throws (`Panel.WelcomeThrows`): an unparsable session; with the welcome
  element present, a `null` session, or a truthy username whose text
  cannot be formed (`Panel.TextThrows`: an object with its own `toString`
  key, or an array holding one at any depth).
- SHA-256 is a function parameter and `getRandomValues` is an input sequence.
  The network delay in `validateCredentials` is timing only.
- Navigation (`window.location.href = ...`) is modelled as the `Redirect` value
  and the login outcome.
- `Panel.UpdateRoomPrices`: its room argument is one of the three rooms. A
  `data-room` attribute naming no room, and the early return when the button
  is missing, are not modelled.
- `Panel.SaveAllChanges`: the rooms are visited in the order `training`,
  `private`, `meeting`, the key order of every table the panel builds. The
  source walks `Object.keys(priceData)`, so a stored or imported table whose
  keys come in another order, or with extra room keys, is walked in that
  order. That decides which rooms are already replaced when a later room
  throws; over the three rooms the completed save is the same in any order.
  A table with a further room key (reachable through an import or a stored
  record) makes every pass throw at that room's missing inputs, so it never
  completes; see `Panel.ImportData`.
- `Panel.SaveAllChanges`: change detection compares prices structurally. The
  source compares `JSON.stringify` text. That gives the same answer for
  form-built rooms, but a stored room whose keys come in another order or
  carry extra keys would count as changed there.
- `Panel.AutoSave`: the same structural comparison and room order as
  `Panel.SaveAllChanges`.
- `Panel.ImportData`: the imported table keeps only the required rooms, slots
  and tiers, while the source keeps the imported `prices` object as it is.
  One consequence is modelled: a `null` under any key of `prices`, or under
  any key of one of its rooms, makes filling the inputs throw before
  anything is saved (`Panel.FillThrows`, `Panel.ImportWithNullSlotFails`).
  Another is not: a further room key (`vip`, say) is saved, with its own
  `vipRoomPrices` record, and from then on every save-all and auto-save
  throws at the missing `vip-...` inputs, also after a reload, so the page
  can no longer save. The model's table has exactly three rooms and does
  not show this.
- `Panel.LoadCurrentPrices`: it only covers tables of whole numbers between
  -10^21 and 10^21. JavaScript's text for fractions and exponent forms is not
  modelled. The defaults qualify; an input such as "1000000000000000000000"
  parses to 10^21, which JavaScript would show in exponent form, so a table
  built from such a page does not.
- `Panel.ResetLeavesCleanPage`: the matching statement for an import is not
  made, because an imported table may hold prices an input cannot show.
- `Panel.OpenPanel`: the panel's table is the validated load
  (`Persistence.LoadPriceData`), not the unchecked one (see Findings). Whether
  the page has the welcome element is a parameter.
- `Auth.ExpiryValue`: a string or array `expiresAt` is treated as NaN, so the
  session counts as unexpired. JavaScript converts text or an array to a
  number first, and compares whenever that number is not NaN: blank text
  and `[]` give 0, numeric text its number, `[[5]]` gives 5. An array
  holding an object with its own `toString` key makes the conversion
  throw. A session the login writes always has a numeric expiry.
- `Auth.HandleLogin`: the `try`/`catch` around the credential check is not
  modelled, because the digest is a total function here.
- `Utf8.EncodeInjective`: holds for strings of Unicode scalar values only.
  A JavaScript string may hold a lone surrogate, which `TextEncoder` replaces
  by U+FFFD, so two such strings can encode alike; Dafny strings cannot hold
  lone surrogates.
- `Utf8.DecodeEncode`: for the same reason, a string with a lone surrogate
  would decode back with U+FFFD in its place.
- `Auth.HashPasswordInjective`: it rests on `Utf8.EncodeInjective`, so two
  passwords that differ only in lone surrogates would hash alike.
- Numbers are unbounded reals and integers: JavaScript's double rounding,
  NaN from arithmetic and `Infinity` cannot arise.

## Findings

| source | as written | input that shows it | evidently intended | confidence | as-written member | corrected member |
|---|---|---|---|---|---|---|
| admin-panel.js:61-65 | `loadPriceData` returns the stored `prices` whenever `version` and `prices` are truthy, without checking their shape | a stored record `{"version":"2.1","prices":5}` loads the number 5 as the table: it has no rooms, so later saves and exports carry no prices | fall back to the default table unless the stored prices form a complete non-negative table, the check `validateImportedData` already applies to imported prices | medium, not executed | `Persistence.LoadPriceDataAsWritten` (counterexample `Persistence.LoadAcceptsShapelessPrices`) | `Persistence.LoadPriceData` |
