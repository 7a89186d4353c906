# Collaborative editor: relay server and editor formatting logic

This project models the two parts of the collaborative text editor that hold real logic:

- **The WebSocket relay server** (`server.c`). It keeps a fixed array of at most ten connection handles and a count. A connection is appended when it is established and removed when it closes, and later entries shift down to fill the gap. The server answers authentication requests against a small credential table. It forwards every other message unchanged to every registered connection.
- **The GTK editor's text logic** (`main.c`). This covers the word count, the check that the whole selection carries a formatting tag, and toggling a tag over the selection. Toggling clears the other tags of the tag's exclusive group: the colours red/blue/green or the sizes small/normal/big. It also covers the choice of group for each format button and the Ctrl keyboard shortcuts.

Modules:

- `Optional` (`option.dfy`) holds an `Option` type.
- `Auth` (`auth.dfy`) holds the credential table, `check_auth`, and the `sscanf` scan of an authentication request.
- `Relay` (`relay.dfy`) holds the `Registry` class, which owns the `clients` array and `client_count`, plus the receive dispatch and the broadcast.
- `WordCount` (`wordcount.dfy`) holds the counting loop.
- `Editor` (`editor.dfy`) holds the `TextBuffer` class: one tag set per character and the selection bounds `[selStart, selEnd)`. It also holds the specification function `Toggled` and the shortcut mapping.

Modelling choices:

- Connection handles are objects of an empty class `Connection`. Only their identity matters.
- A call to `lws_write` is not performed. Each method returns the writes it would make as a list of `Write(to, payload)` events.
- A received message is the `len` bytes the server was handed, modelled as a string in which each character stands for one byte. The 63-character field width therefore counts bytes, as in the C.
- The GTK text buffer is reduced to the tag set of each character and an ordered selection range. GTK itself reports "no selection" when the range is empty.

Where the system's intended design and the code disagree, the model follows the code:

- The relay echoes every forwarded message back to its sender when that sender is registered. `broadcast_message` has no sender exclusion. A connection that arrived while the registry was full is never stored. Its messages are still broadcast to the registered connections, but it receives neither an echo nor any broadcast.
- The relay forwards non-authentication traffic whether or not the sender ever authenticated. The registry keeps no authentication state.
- There is no replicated-sequence (CRDT) logic. The CRDT operations in `src/crdt.c` are empty stubs, so there is nothing to model.

## Model

| member | source | states |
|---|---|---|
| `Auth.CheckAuth` | server.c:35-43 | returns 0 or 1, and 1 exactly when some row before the NULL sentinel matches both the user name and the password |
| `Auth.ListedAccounts` | server.c:19-23 | the only accepted credentials are alice/1234 and bob/abcd |
| `Auth.IsAuthRequest` | server.c:61 | a message takes the authentication branch exactly when it has at least 14 characters and they are `{"type":"auth"`; every message that starts with the full scan format's opening literal qualifies |
| `Auth.FieldLength` | server.c:63 | a `%63[^"]` conversion takes the longest prefix of at most 63 characters free of `"` and NUL |
| `Auth.ParseRequest` | server.c:62-63 | a scan that assigns both fields only happens for an authentication request; each field is 1 to 63 characters with no `"`; and the message starts with the format's literals around the two fields |
| `Auth.ParseRequestReadsWholePassword` | server.c:62-63 | the password read is the whole field: it stops only at 63 characters, at the end of the message, or at a `"` or NUL |
| `Auth.ScanName` | server.c:62-63 | the first conversion alone assigns the user name, 1 to 63 characters with no `"`, right after the format's opening literal, even when the rest of the scan then fails |
| `Auth.ScanNameReadsWholeName` | server.c:63 | the name read is the whole field: it stops only at 63 characters, at the end of the message, or at a `"` or NUL |
| `Auth.ScanNameOfField` | server.c:63 | a name field of 1 to 63 plain characters after the opening literal is read in full, whatever comes after the stop character that ends it, so the name is assigned even when the rest of the scan fails |
| `Auth.NameArgument` | server.c:62-65 | `check_auth` gets the scanned name, or the buffer's earlier contents when the first conversion was not assigned; after a full scan it is that scan's user name |
| `Auth.PasswordArgument` | server.c:62-65 | `check_auth` gets the scanned password, 1 to 63 characters right after the middle literal, or the buffer's earlier contents when the full scan failed |
| `Auth.ParseRequestExtendsScanName` | server.c:63 | a full scan assigns the same user name as the first conversion alone |
| `Auth.ParseRequestIgnoresTail` | server.c:63 | anything after the password field that is empty or starts with a `"` or NUL leaves the scan's result unchanged, since the trailing literal decides nothing |
| `Auth.ParseRequestRoundTrip` | server.c:63 | scanning a well-formed request with fields of 1 to 63 plain characters recovers exactly those credentials |
| `Auth.ParseRequestCutsPassword` | server.c:62-63 | a password longer than 63 characters is read as its first 63 characters |
| `Auth.ParseRequestRejectsLongName` | server.c:62-63 | a user name longer than 63 characters makes the scan fail, because the literal after it cannot match |
| `Auth.FieldLengthOfRun` | server.c:63 | a conversion stops exactly at the first `"` or NUL that ends a run of at most 63 characters |
| `Auth.FieldLengthOfLongRun` | server.c:62-63 | a conversion over a run of 63 or more field characters takes exactly 63 |
| `Relay.RemoveFirstAt` | server.c:83-89 | removing the first occurrence at index k keeps the entries before k and shifts the later ones down one place, in order |
| `Relay.RemoveFirstAbsent` | server.c:83-90 | closing a connection that is not registered leaves the list unchanged |
| `Relay.RemoveFirstMultiset` | server.c:83-89 | closing removes exactly one copy of the closed connection and nothing else |
| `Relay.RemoveFirstAfterAppend` | server.c:52 | closing a newly registered connection undoes its registration |
| `Relay.Registry.constructor` | server.c:9-10 | the zero-initialised registry is valid and empty |
| `Relay.Registry.Connect` | server.c:50-55 | when fewer than 10 connections are registered, the new one is stored at index `client_count` and the count goes up; when full, nothing changes; the registry invariant is kept |
| `Relay.Registry.Close` | server.c:81-93 | the registered list loses the first occurrence of the closing connection and the count drops by one; otherwise nothing changes; the count stays within 0..10 and slots past the count stay NULL |
| `Relay.Registry.Broadcast` | server.c:26-31 | exactly the registered connections, in index order and including the sender, are each sent the whole message once |
| `Relay.Registry.Receive` | server.c:57-79 | an authentication request gets exactly one reply, to its sender only, and is never broadcast; the reply is "ok" iff `check_auth` accepts what the scan assigned, with a buffer the scan left unassigned keeping its earlier contents; a fully scanned request is "ok" iff its credentials are listed; a scanned user name other than alice or bob always gets "fail"; any other message is broadcast unchanged to every registered connection, the sender included when registered |
| `WordCount.IsSpace` | main.c:20 | a character is blank exactly when it is a space or one of the codes 9 to 13 other than the vertical tab 11, as GLib's ASCII table has it |
| `WordCount.TextEnd` | main.c:19 | the loop reads the text up to its first NUL |
| `WordCount.CountWords` | main.c:17-22 | the loop's count is the number of word starts in the text before its NUL |
| `WordCount.WordsCountRuns` | main.c:17-22 | the number of word starts equals the number of maximal runs of non-blank characters |
| `WordCount.WordsZeroIffBlank` | main.c:17-22 | the count is zero exactly for empty or all-blank text |
| `WordCount.WordsAtMostNonBlank` | main.c:19-21 | the count never exceeds the number of non-blank characters |
| `WordCount.WordsConcat` | main.c:20-21 | text split at a blank has the sum of the two parts' counts |
| `WordCount.WordsOfRun` | main.c:21 | a non-empty run of non-blank characters counts as one word |
| `WordCount.SkipWord` | main.c:20-21 | skipping a word stops at the first blank, and everything skipped is non-blank |
| `Editor.ExclusiveGroup` | main.c:112-124 | red, blue and green get the colour group; small, normal and big get the size group; exactly bold, italic and underline get no exclusives |
| `Editor.GroupsPartition` | main.c:112-124 | the groups are closed: a tag with a group belongs to it, and every member of a tag's group has that same group |
| `Editor.TextBuffer.SelectionHasTag` | main.c:33-44 | returns false without a selection; otherwise returns true iff every character in `[start, end)` carries the tag |
| `Editor.TextBuffer.RemoveTag` | main.c:64 | removes the tag from every selected character and from no other |
| `Editor.TextBuffer.ApplyTag` | main.c:70 | adds the tag to every selected character and to no other |
| `Editor.TextBuffer.ToggleTag` | main.c:48-73 | the new tags are `Toggled` of the old ones: the decision comes from the tags before any change |
| `Editor.ToggledNoSelection` | main.c:50 | with no selection the buffer is unchanged |
| `Editor.ToggledOutside` | main.c:64-72 | characters outside the selection keep their tags |
| `Editor.ToggledFlips` | main.c:57-72 | if every selected character had the tag, none has it afterwards; otherwise all have it |
| `Editor.ToggledExclusive` | main.c:61-65 | no selected character keeps another tag of the exclusive group |
| `Editor.ToggledKeepsOthers` | main.c:61-72 | tags outside the group, other than the toggled one, are untouched |
| `Editor.DecisionIgnoresClearing` | main.c:57-65 | deciding before or after the exclusive tags are cleared gives the same answer, since the toggled tag is skipped by the clearing loop |
| `Editor.TextBuffer.FormatClicked` | main.c:108-124 | a format click toggles the tag with its own group as exclusives |
| `Editor.ClickLeavesOneOfGroup` | main.c:112-124 | after a colour or size click each selected character carries at most one tag of that group |
| `Editor.Shortcut` | main.c:148-163 | a key press yields a tag only when Ctrl is held, never `normal`, and only for the key bound to that tag |
| `Editor.ShortcutMatchesKeys` | main.c:148-163 | a key maps to a tag exactly when Ctrl is held and it is that tag's key (b, i, u, r, l, g, =, -); normal has no key |
| `Editor.ShortcutNeedsCtrl` | main.c:148-149 | without Ctrl no key maps to anything |
| `Editor.TextBuffer.KeyPressed` | main.c:146-164 | returns true and formats the selection exactly for a mapped Ctrl shortcut; otherwise returns false and leaves the buffer unchanged |

## Left out

- `src/crdt.c` and `include/crdt.h`: every operation there is an empty stub. There is no insert, delete, merge, tie-break or tombstone logic to model.
- Relay locking (`pthread_mutex`) and the `printf` of `client_count` outside the lock: these are concurrency and logging.
- Relay `main`: the libwebsockets context setup and the `lws_service` loop are I/O plumbing.
- `lws_write`: modelled as a recorded `Write` event. Its return value and partial writes are not modelled.
- The `default` case of `callback_editor` does nothing and is not modelled. The three handled cases are `Connect`, `Close` and `Receive`.
- Relay.Registry.Receive: when the scan leaves a buffer unassigned, `check_auth` reads whatever it held before. The model takes those contents as the inputs `staleName` and `stalePassword` and assumes they are NUL-terminated strings. In C, reading them is undefined behaviour and may run past the 64-byte buffer.
- Relay.Registry.Receive: `strncmp` and `sscanf` are assumed not to read past the `len` bytes received. The C relies on a terminator that libwebsockets does not promise.
- The server's "User ... authorized" log lines are left out.
- Editor tag names: tags are an enumeration. A name missing from the tag table, for which GTK's lookup returns NULL, is not modelled. The editor only ever passes the nine names it creates.
- Editor text: the buffer's characters themselves are not modelled, only their tag sets. The word count works on the text as a string.
- `update_toolbar_highlight` uses floating-point widget opacity, and `create_tags` uses Pango attributes and float scales. Both are UI.
- The word-count label text, `activate`, `main` and widget construction are UI.
- `client.c`: its socket I/O and receive thread are network and concurrency. Its offset-based insert/delete handlers are thin wrappers over GTK calls.
- `script.js`: browser UI and DOM traversal. Its word count is a near-duplicate of the one in `main.c` that splits on JavaScript's `\s`, so it also treats Unicode spaces such as U+00A0 as blanks, which `g_ascii_isspace` does not.
- `src/utils.c`: site-id generation uses the clock and random numbers, and logging and file reading are I/O.
- `src/network.c`, `src/ui.c`, `src/main.c` and the remaining headers are stubs, declarations or bootstrap.
