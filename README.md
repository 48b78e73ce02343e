# Auction site core: connection pool, input sanitizer and bean logic

This project models the core of a Java web application for online auctions. It has three parts:

- **`Pool`** (`pool.dfy`): the expiring, bounded JDBC connection pool `ConnectionsHandler`.
  - The idle list holds the most recently returned connection at its head.
  - A counter `openConnections` is capped at 10.
  - A returned connection expires 30 seconds later.
  - `getConnection` pops and probes from the head, discards dead entries and otherwise opens a new connection.
  - `returnConnection` prepends an entry.
  - The cleaner pops expired entries from the tail and stops at the first live one.
  - Shutdown closes every idle entry.
  - `asyncCloser` re-probes each connection of a batch and closes those that still pass `isValid(1)`.
  - The class keeps the accounting invariant `openConnections == idle + borrowed`. It also keeps the cap, handle distinctness, and (given a clock that does not go back) expirations non-increasing from head to tail. That ordering is what makes the cleaner's early stop correct.
- **`Sanitizer`** (`sanitizer.dfy`): `InputSanitizer`. Every check escapes its input with commons-text `escapeJava`, then tests the escaped text: with a regular expression, or with `equals` for `sanitizeBoolean`. The model writes out `escapeJava` and each pattern, and states exactly which raw inputs each check accepts.
- **Bean logic**:
  - `Articles` (`articles.dfy`): the allowed upload types; the content type ↔ file extension ↔ `data:image/...;base64,` header mappings, which round-trip; and the constructor.
  - `Users` (`users.dfy`): the lower-case hex rendering of the password digest, and the constructor.
  - `Auctions` (`auctions.dfy`):
    - the day/hour rendering of the time left, `isOpen`, `equals`/`hashCode` and the copy constructor;
    - the way `createAuctionWithArticles` borrows its connection from the pool.

`Wrappers` (`wrappers.dfy`) holds `Option` and `Result`. `Text` (`text.dfy`) holds Java's decimal rendering and parsing of integers.

How the outside world enters the model:

- Time is an integer parameter `now`.
- Each JDBC call is an oracle parameter:
  - `isValid` is `probe: Handle -> Probe`, answering live, not valid, or `SQLException`;
  - `newConnection` is `created: Option<Handle>`;
  - `close` failing is `closeFails`.
- Waiting on the pool's monitor is the result `WouldBlock`, with the state unchanged.
- In `Sanitizer`, `Err(InvalidChars)` stands for `InvalidCharsException` and `Err(NumberFormat)` for the `NumberFormatException` thrown by `Integer.parseInt`.

Where the code and its comments or documentation disagree, the model follows the code:

- **The reuse path of `getConnection` drops its batch** (`ConnectionsHandler.java:121`). When a pooled connection passes the probe, `getConnection` returns it straight away. Dead entries found before it have already been removed and counted down, but the batch holding them is never handed to `asyncCloser`. On this path `toCloseAsync` is therefore `[]`.
- **Some characters listed in the patterns are never accepted** (`InputSanitizer.java:14, 25, 36`). The patterns list `"`, `£`, `€`, `à`, `ò`, `è`, `é` and all of `\s`. But the pattern is matched against the escaped text, so any character `escapeJava` rewrites is refused. Of `\s` only the space is accepted. `Sanitizer.Accepted` states the classes that really apply.
- **`sanitizeFloat`'s pattern admits any separator** (`InputSanitizer.java:58`). The `.` in its pattern is unescaped, so any single plain character (printable ASCII other than `"` and `\`, which `escapeJava` leaves alone) passes between the digit groups. `12x5` passes the pattern and then fails in `Float.parseFloat`; `1e30` passes both and gives `1.0E30`, and `9e99` gives `Infinity`.
- **`sanitizeDateTime` always appends seconds** (`InputSanitizer.java:74`). Its `input.length()==16` test always holds once the pattern has matched.
- **The connections `getConnection` discards are never closed** (`ConnectionsHandler.java:119-130, 270, 282-290`). The class comment says `asyncCloser` closes invalid connections, but it closes a connection only when `isValid(1)` passes. The batch `getConnection` hands it holds exactly the connections that just failed `isValid(1)`, so under the same answers none of them is closed (`Pool.CloserClosesNoneOfScanBatch`).
- **Shutdown leaves the state alone** (`ConnectionsHandler.java:67-75`). It closes the idle connections but neither clears the list nor resets the counter.

## Model

| member | source | states |
|---|---|---|
| Pool.BorrowedToCapMustWait | src/main/java/it/carlotto/tiwria/utils/ConnectionsHandler.java:97-100 | under `open == idle + borrowed` and the cap, ten borrowed connections leave the list empty at the cap, so `getConnection` must wait |
| Pool.ScanIdleSplits | src/main/java/it/carlotto/tiwria/utils/ConnectionsHandler.java:114-135 | the head scan takes entries in order: every entry before the found one failed the probe and is discarded in order, the found one passed, and the rest of the list is untouched; with no live entry, all are discarded |
| Pool.CleanedSplits | src/main/java/it/carlotto/tiwria/utils/ConnectionsHandler.java:223-237 | the cleaner removes a tail suffix of expired entries, oldest first, keeps the prefix in order, and stops because the list is empty or the last kept entry is not expired |
| Pool.CleanedLeavesNoExpired | src/main/java/it/carlotto/tiwria/utils/ConnectionsHandler.java:223-237 | on a list whose expirations do not increase toward the tail, no expired entry survives a cleaner pass |
| Pool.UnorderedCleanerKeepsExpired | src/main/java/it/carlotto/tiwria/utils/ConnectionsHandler.java:223-237 | without that ordering the early stop leaves an expired entry behind (concrete list) |
| Pool.RacingReturnsKeepExpired | src/main/java/it/carlotto/tiwria/utils/ConnectionsHandler.java:165-172 | two returns that read the clock in one order and enter the monitor in the other leave the list unordered, and a cleaner pass between their expirations keeps the expired entry |
| Pool.ClosedByCloserExactly | src/main/java/it/carlotto/tiwria/utils/ConnectionsHandler.java:282-290 | `asyncCloser` closes exactly the connections of its batch that probe live; one that probes invalid or throws does not stop the rest |
| Pool.CloserClosesNoneOfScanBatch | src/main/java/it/carlotto/tiwria/utils/ConnectionsHandler.java:119-130 | under the same probe answers, `asyncCloser` closes none of the connections in the batch `getConnection` discarded |
| Pool.AsyncCloserRun | src/main/java/it/carlotto/tiwria/utils/ConnectionsHandler.java:281-291 | the loop closes exactly `ClosedByCloser` of its batch |
| Pool.ConnectionsHandler.constructor | src/main/java/it/carlotto/tiwria/utils/ConnectionsHandler.java:24-35 | the pool starts empty with `openConnections == 0`, satisfying the invariant and the ordering |
| Pool.ConnectionsHandler.GetConnection | src/main/java/it/carlotto/tiwria/utils/ConnectionsHandler.java:88-157 | must-wait leaves everything unchanged; otherwise it reuses the first live head entry with the dead ones before it counted down, or opens a new connection (+1) and queues the dead ones for `asyncCloser`, or on a failed create undoes the +1; the invariant (accounting, cap at 10, distinct handles) and the ordering are kept; the handle handed out was not already borrowed |
| Pool.PopUntilLive | src/main/java/it/carlotto/tiwria/utils/ConnectionsHandler.java:114-135 | the head loop computes exactly the scan `ScanIdle` (the connection found, the list left, the batch), with the counter down by one per discarded entry |
| Pool.ScanKeepsInvariant | src/main/java/it/carlotto/tiwria/utils/ConnectionsHandler.java:114-135 | after the scan the accounting invariant holds with the counter down by the batch and the found connection borrowed (it was not borrowed before), and the ordering survives |
| Pool.ConnectionsHandler.TakeFromHead | src/main/java/it/carlotto/tiwria/utils/ConnectionsHandler.java:114-135 | the pool's list, counter and borrowed set become what the scan leaves; the invariant and the ordering are kept |
| Pool.ConnectionsHandler.ReturnConnection | src/main/java/it/carlotto/tiwria/utils/ConnectionsHandler.java:165-173 | prepends the connection with expiration `now + 30`, the other entries keep their order, `openConnections` is unchanged, the connection is no longer borrowed; the ordering survives when the clock has not gone back |
| Pool.PopExpired | src/main/java/it/carlotto/tiwria/utils/ConnectionsHandler.java:223-237 | the tail loop leaves exactly `Cleaned` and collects exactly `ExpiredFromTail`, with the counter down by one per expired entry |
| Pool.PrefixKeepsInvariant | src/main/java/it/carlotto/tiwria/utils/ConnectionsHandler.java:226-228 | dropping entries from the tail and counting each down keeps the invariant and the ordering |
| Pool.ConnectionsHandler.Cleaner | src/main/java/it/carlotto/tiwria/utils/ConnectionsHandler.java:207-243 | the list becomes `Cleaned`, the expired handles removed are `ExpiredFromTail`, the counter drops by their number, the invariant is kept, and on an ordered list no expired entry remains |
| Pool.ConnectionsHandler.ContextDestroyed | src/main/java/it/carlotto/tiwria/utils/ConnectionsHandler.java:67-75 | every idle connection is closed once, in list order; one whose close fails does not stop the rest; the list and the counter are left as they are |
| Pool.ScanAsWrittenLeaksDropped | src/main/java/it/carlotto/tiwria/utils/ConnectionsHandler.java:132-142 | as written, every entry whose probe throws is removed from the list without counting down, so the counter ends that many above the number of idle plus borrowed connections; the dropped ones are neither counted down nor closed |
| Pool.ProbeErrorExceedsCap | src/main/java/it/carlotto/tiwria/utils/ConnectionsHandler.java:132-142 | as written, one idle connection whose probe throws, with the counter at 10, leads to a new connection with the counter at 11 |
| Sanitizer.EscapePlainIdentity | src/main/java/it/carlotto/tiwria/utils/InputSanitizer.java:11-12 | `escapeJava` leaves printable ASCII other than `"` and `\` unchanged |
| Sanitizer.EscapeMarksNonPlain | src/main/java/it/carlotto/tiwria/utils/InputSanitizer.java:11-12 | on any other input `escapeJava` produces a backslash followed by a non-digit |
| Sanitizer.EscapedRepeatsIff | src/main/java/it/carlotto/tiwria/utils/InputSanitizer.java:14 | the escaped text matches `[class]{lo,hi}` iff the raw input does and is all plain, and then the escaped text is the input |
| Sanitizer.AcceptedIsPlainClass | src/main/java/it/carlotto/tiwria/utils/InputSanitizer.java:25 | a character is accepted iff it is in the pattern's class and `escapeJava` leaves it alone |
| Sanitizer.CheckAcceptsIff | src/main/java/it/carlotto/tiwria/utils/InputSanitizer.java:14 | a text check passes iff the raw input has `lo..hi` characters, all accepted |
| Sanitizer.SanitizeAlphanumeric | src/main/java/it/carlotto/tiwria/utils/InputSanitizer.java:10-19 | accepts exactly 0 to 50 letters, digits and spaces, and then returns the input unchanged; otherwise invalid chars |
| Sanitizer.SanitizePassword | src/main/java/it/carlotto/tiwria/utils/InputSanitizer.java:21-30 | accepts exactly 4 to 50 letters, digits, spaces or ``-+_#*'^?!$%&/()=@`` (the hyphen is literal), and then returns the input unchanged; otherwise invalid chars |
| Sanitizer.SanitizeGeneric | src/main/java/it/carlotto/tiwria/utils/InputSanitizer.java:32-41 | accepts exactly 0 to 50 letters, digits, spaces or ``-+_*!'^?``, and then returns the input unchanged; otherwise invalid chars |
| Sanitizer.GenericRejectsListedAccent | src/main/java/it/carlotto/tiwria/utils/InputSanitizer.java:36 | `è` is in the generic pattern's class, yet `sanitizeGeneric("è")` fails |
| Sanitizer.SanitizeNumeric | src/main/java/it/carlotto/tiwria/utils/InputSanitizer.java:43-52 | invalid chars iff the input is not 1 to 20 ASCII digits; otherwise its decimal value when at most `2^31 - 1`, else a number-format error |
| Sanitizer.NumericRoundTrip | src/main/java/it/carlotto/tiwria/utils/InputSanitizer.java:47-51 | every `int` from 0 to `2^31 - 1`, written in decimal, parses back to itself |
| Sanitizer.SanitizeFloat | src/main/java/it/carlotto/tiwria/utils/InputSanitizer.java:54-64 | accepts iff the input is plain and is 1 to 20 digits, or 1 to 20 digits, one non-line-terminator character and 0 to 2 digits; the accepted text is the input |
| Sanitizer.FloatShapeNeedsPlain | src/main/java/it/carlotto/tiwria/utils/InputSanitizer.java:56-59 | the escaped text has the float shape iff the raw input is plain and has it |
| Sanitizer.FloatPatternAdmitsAnySeparator | src/main/java/it/carlotto/tiwria/utils/InputSanitizer.java:56-63 | the unescaped `.` lets `12x5`, `1e30` and `9e99` past the pattern, each handed to `Float.parseFloat` as it is |
| Sanitizer.SanitizeDateTime | src/main/java/it/carlotto/tiwria/utils/InputSanitizer.java:66-78 | accepts iff the input is `DDDD-DD-DDTDD:DD`, and then the text handed to `Timestamp.valueOf` is the input with the `T` made a space and `:00` appended (19 characters) |
| Sanitizer.DateTimeShapeNeedsPlain | src/main/java/it/carlotto/tiwria/utils/InputSanitizer.java:68-70 | the escaped text has the date-time shape iff the raw input has it |
| Sanitizer.SanitizeBoolean | src/main/java/it/carlotto/tiwria/utils/InputSanitizer.java:80-87 | true iff the input is `"true"`, false iff it is `"false"`, invalid chars otherwise |
| Sanitizer.BooleanNeedsPlain | src/main/java/it/carlotto/tiwria/utils/InputSanitizer.java:82-85 | the escaped text is `"true"` (`"false"`) iff the input is |
| Articles.AllowedContentType | src/main/java/it/carlotto/tiwria/beans/Article.java:416-420 | true exactly for a non-null `image/jpeg`, `image/png` or `image/gif` |
| Articles.AllowedIffExtension | src/main/java/it/carlotto/tiwria/beans/Article.java:217-230 | a content type gets an extension iff it is allowed, and that extension is a dot and three lower-case letters |
| Articles.AfterFirstDot | src/main/java/it/carlotto/tiwria/beans/Article.java:365-367 | the split yields no extension iff the name has no `.` |
| Articles.AfterFirstDotIsFirst | src/main/java/it/carlotto/tiwria/beans/Article.java:365-367 | the extension is everything after the first `.`, with no `.` before it |
| Articles.MimeSubtype | src/main/java/it/carlotto/tiwria/beans/Article.java:369-386 | the extension maps to `jpeg`, `png`, `gif` or nothing |
| Articles.ImageHeader | src/main/java/it/carlotto/tiwria/beans/Article.java:358-390 | a null or empty name gives no header; any header is `data:image/<jpeg, png or gif>;base64,` |
| Articles.EncodeImage | src/main/java/it/carlotto/tiwria/beans/Article.java:358-407 | the result is non-empty iff there is a header and a readable file; then it is the header followed by the file's Base64 text; otherwise `""` |
| Articles.StoredFileNameRoundTrip | src/main/java/it/carlotto/tiwria/beans/Article.java:217-232 | the file name stored for an allowed type gets back that type's own subtype header; any other type gives a dot-less name and no image |
| Articles.ExtensionNamesSubtype | src/main/java/it/carlotto/tiwria/beans/Article.java:217-230 | for each allowed type, the text after the extension's dot maps back to the type's own MIME subtype |
| Articles.NewArticle | src/main/java/it/carlotto/tiwria/beans/Article.java:31-41 | id, owner, base price, auction and name are stored as given; a null description becomes `""`, otherwise it is kept; the image text is `EncodeImage` of the file name |
| Users.Unsigned | src/main/java/it/carlotto/tiwria/beans/User.java:187 | `%02x` prints a byte as its value modulo 256, in 0..255 |
| Users.HexAt | src/main/java/it/carlotto/tiwria/beans/User.java:184-190 | the text is twice as long as the bytes, all lower-case hex; characters `2i` and `2i+1` are the high and low nibbles of byte `i` read unsigned |
| Users.HexDecodes | src/main/java/it/carlotto/tiwria/beans/User.java:184-190 | reading the text back in pairs gives every byte's unsigned value |
| Users.HexInjective | src/main/java/it/carlotto/tiwria/beans/User.java:184-190 | different byte arrays give different texts |
| Users.DigestHexLength | src/main/java/it/carlotto/tiwria/beans/User.java:93-95 | a 20-byte SHA-1 digest gives a 40-character hash |
| Users.BytesToHex | src/main/java/it/carlotto/tiwria/beans/User.java:184-190 | the loop builds exactly `Hex(bytes)`, twice as long as the bytes |
| Users.NewUser | src/main/java/it/carlotto/tiwria/beans/User.java:27-35 | a null address becomes `""`, otherwise it is kept; the other fields are stored as given |
| Auctions.Copy | src/main/java/it/carlotto/tiwria/beans/Auction.java:39-47 | the copy equals the original in all seven fields |
| Auctions.Wrap32 | src/main/java/it/carlotto/tiwria/beans/Auction.java:111-113 | the result is an `int` congruent to its argument modulo `2^32` |
| Auctions.HashCodeMatchesEquals | src/main/java/it/carlotto/tiwria/beans/Auction.java:90-113 | two objects of class `Auction` are equal iff their hash codes are: both depend on the id only, and `31 + id` wraps injectively |
| Auctions.IsOpen | src/main/java/it/carlotto/tiwria/beans/Auction.java:73-88 | true iff the termination instant is strictly after now; the hours left shown for an open auction are never negative, for a closed one never positive, and an open auction in its last hour shows `0d 0h` |
| Auctions.DeltaSplit | src/main/java/it/carlotto/tiwria/beans/Auction.java:73-76 | `24 * days + hours == delta`; ahead of the end `days >= 0` and `0 <= hours <= 23`, after it both are at most 0 and `hours >= -23` |
| Auctions.DeltaReadsBack | src/main/java/it/carlotto/tiwria/beans/Auction.java:73-76 | ahead of the end the text is `<days>d <hours>h` and reads back as the delta, with the hours in at most two digits |
| Auctions.DeltaPastEnd | src/main/java/it/carlotto/tiwria/beans/Auction.java:75 | after the end both parts are negative or zero: `-5` renders as `0d -5h`, `-29` as `-1d -5h` |
| Auctions.CreateAuctionWithArticles | src/main/java/it/carlotto/tiwria/beans/Auction.java:449-490 | as written: an empty article list after a connection was obtained ends with that connection still borrowed; with articles the connection is returned on every path |
| Auctions.CreateAuctionWithArticlesFixed | src/main/java/it/carlotto/tiwria/beans/Auction.java:449-490 | with the empty-list check first, an empty list touches nothing, and no path leaves a connection borrowed |

## Left out

- Synchronisation: `synchronized`, `wait`, `notifyAll`, the scheduled executor, `awaitTermination` and `shutdownNow`. Each critical section is modelled as one sequential step. On its create path `GetConnection` also merges two locked sections (`ConnectionsHandler.java:95-144` and `154`) and the unlocked `newConnection` call between them into one step, so the interval in which other threads see `openConnections` counting a slot that holds no connection yet is not represented. Waiting for a connection is the `WouldBlock` result, and a cleaner waiting on an empty list is a pass that removes nothing.
- `executor.submit` of a batch: `GetConnection` and `Cleaner` return the batch instead, and `AsyncCloserRun` models what the closer does with it.
- JDBC (`DriverManager.getConnection`, `isValid`, `close`), `Class.forName` and `System.getenv` are foreign I/O. They are oracle parameters, and a connection is an opaque `nat` handle.
- `Instant.now()` is the parameter `now`, in seconds for the pool. Expirations are compared as integers, without `Timestamp` precision.
- The loops of `getConnection` and of the cleaner (`Pool.PopUntilLive`, `Pool.PopExpired`) work on copies of the list and the counter, which the class methods store back when the loop ends. The source updates the fields in place, but inside one `synchronized` block, so no other thread sees the intermediate states.
- Pool.ConnectionsHandler.ReturnConnection: the ordering is kept only when `now` is at least every earlier return's `now`. The source does not guarantee this even with a clock that never goes back: it reads `Instant.now()` before entering `synchronized (connections)`, so two concurrent returns can enter in the opposite order to their clock readings. `Pool.RacingReturnsKeepExpired` shows the resulting unordered list and the expired entry the cleaner then keeps.
- `Pool.ConnectionsHandler.GetConnection`, `Pool.ScanIdleSplits`, `Pool.PopUntilLive`, `Pool.ScanKeepsInvariant` and `Pool.ConnectionsHandler.TakeFromHead` model the corrected scan, in which a probe that throws discards the entry like an invalid one (counted down and batched). Lines 132-134 as written do neither; that code is `Pool.ScanAsWritten` (see Findings).
- `Float.parseFloat` and `Timestamp.valueOf`: float values and the calendar validity of dates are not modelled. `SanitizeFloat` and `SanitizeDateTime` return the text these functions would be given.
- Sanitizer.SanitizeFloat: does not model the `NumberFormatException` that `Float.parseFloat` throws on text the pattern admits but Java cannot parse, such as `12x5`; `Ok` means only that both pattern tests were passed.
- Null inputs to the `Sanitize*` checks: `escapeJava(null)` returns null and the pattern test (or `equals` in `sanitizeBoolean`) then throws `NullPointerException`, not `InvalidCharsException`. The model takes non-null strings only; the callers in the servlets test for null and empty input first.
- `escapeJava` is modelled on Dafny characters, which are Unicode scalar values. Lone UTF-16 surrogates in a Java string are not represented.
- SHA-1 (`MessageDigest`), UTF-8 encoding of the password, `Base64` and reading the image file are library work. `BytesToHex` takes the digest bytes, and `EncodeImage` takes the Base64 text or `None` when the file is missing or unreadable.
- `LocalDateTime.until(..., HOURS)` is the integer parameter `delta` of `DeltaToTermination`; `HoursUntil` computes it from millisecond instants, without the local time-zone conversion of `toLocalDateTime`. `long` overflow is not modelled, since an hour count never approaches it.
- Auctions.HashCodeMatchesEquals: the `getClass() != o.getClass()` test of `equals` (`Auction.java:93`) is not modelled. The subclasses `AuctionWithArticles` and `AuctionClosed` copy the id, so they hash like the `Auction` they were built from but are not equal to it, and `AuctionClosed.equals` is not symmetric with `Auction.equals`; the lemma speaks only of two objects of class `Auction`.
- `Auction.toString`, the getters, and the base price's `float` arithmetic are left out. The base price is carried as a `real`.
- Every SQL DAO method, the servlets, the login filter, the bid computations and the JavaScript front end are left out. They are database queries, HTTP plumbing, float arithmetic and DOM code. `CreateAuctionWithArticles` models only its use of the pool, with the transaction's outcome as a parameter.

## Findings

| source | as written | input that shows it | evidently intended | confidence | as-written member | corrected member |
|---|---|---|---|---|---|---|
| src/main/java/it/carlotto/tiwria/utils/ConnectionsHandler.java:132-142 | an `SQLException` from `isValid` removes the entry without decrementing `openConnections` or queueing it, and line 142 still adds one for the new connection | one idle connection, nine borrowed, `openConnections == 10`, `isValid` throws: `openConnections` becomes 11 while an eleventh connection is opened | an entry whose probe throws is discarded like an invalid one, so `openConnections == idle + borrowed <= 10` holds | not executed | Pool.ProbeErrorExceedsCap | Pool.ConnectionsHandler.GetConnection |
| src/main/java/it/carlotto/tiwria/beans/Auction.java:451-457 | the connection is obtained before the empty-list check, and the exception thrown there is outside the `try` whose `finally` returns it | `createAuctionWithArticles(u, t, d, [])` with a connection available: it stays borrowed for good; ten such calls leave every later `getConnection` waiting | reject an empty list before borrowing, so every path returns what it borrowed | not executed | Auctions.CreateAuctionWithArticles | Auctions.CreateAuctionWithArticlesFixed |
