# Go tutorial exercises, modelled in Dafny

This project models the exercises in the samy-soliman/Golang tutorial repository that hold sequential logic worth stating. Each one becomes Dafny in the form the Go code takes, and the properties it promises are proved.

- **Slices** (`slices.dfy`, module `Slices`). Effective Go's `Append`, over slice headers (backing array, offset, length) on a shared `array<byte>`. The model covers reallocation to twice the needed size when the capacity runs out, and writes into the existing backing array when it does not.
- **Maps** (`maps.dfy`, module `Maps`):
  - the zero value of a missing key and the comma-ok lookup;
  - `getUserMap`, which builds a map from two parallel lists;
  - `deleteIfNecessary`, which deletes through the caller's map;
  - `add`, the map-of-maps hit counter;
  - the struct-key counter `hits[Key{..}]++`.

  A Go map handed to a function that mutates it is a reference. It is modelled as a `MapRef` object whose `map` field the operations reassign.
- **Mutex-guarded counter** (`mutexes.dfy`, module `Mutexes`). `safeCounter` with `inc`, `val` and `slowIncrement`. The mutex is a `locked` flag that every operation takes and gives back.
- **Generic helpers** (`generics.dfy`, module `Generics`). `getLast` and `splitAnySlice`.
- **Message validator** (`messages.dfy`, module `Messages`). `canSendMessage` of chapter4.go.
- **Profanity filter** (`profanity.dfy`, module `Profanity`). `removeProfanity`: three `strings.ReplaceAll` rewrites, stored back through a pointer.
- **Channels**:
  - `channels.dfy` holds a channel as a FIFO buffer with a capacity, a closed flag and the element type's zero value.
  - `buffered_channels.dfy`, `closing_channels.dfy` and `range_channels.dfy` hold the producers and consumers of the buffered-channel, closing-channel and range exercises.

  A send or receive that would block in Go is excluded by a precondition. A panic (a send on, or a close of, a closed channel) is excluded the same way.

Go errors are `Result`/`Option` values (`wrappers.dfy`). The round count of a counted `for` loop (`Iterations`, `loops.dfy`) is shared by the counter and the channel producers. The zero value of a type parameter is passed in explicitly.

## Model

| member | source | states |
|---|---|---|
| Slices.Slice.Reslice | slices.go:89 | `s[lo:hi]` within the capacity shares the backing array, has length `hi-lo` and loses `lo` of capacity |
| Slices.Make | slices.go:84 | `make([]byte, n)` is a fresh array of `n` zero bytes with length and capacity `n` |
| Slices.Copy | slices.go:86 | `copy` moves `min(len(dst), len(src))` bytes to the front of `dst`, returns that count and changes no other cell |
| Slices.CopyAfter | slices.go:90 | `copy(slice[l:], data)` keeps the first `l` elements and makes the rest `data`; no other cell changes |
| Slices.Append | slices.go:80-92 | the result has length `l+len(data)` within its capacity and shows the old elements then `data`. It reallocates exactly when `l+len(data) > cap`: a fresh zero-filled array of capacity `(l+len(data))*2`, with the old array untouched. Otherwise it keeps the backing array, offset and capacity, and no cell outside the appended range changes |
| Slices.AppendToNil | slices.go:76-92 | appending to a nil slice (length and capacity 0) yields exactly `data`, with capacity `2*len(data)` |
| Maps.Get | maps.go:93 | `elem = m[key]` is the stored value when the key is present and the element type's zero value when it is absent (line 105) |
| Maps.Lookup | maps.go:101-105 | `elem, ok := m[key]`: `ok` iff the key is present; `elem` is the stored value, or the zero value when absent |
| Maps.LookupAfterStore | maps.go:89-93 | after `m[key] = elem` the key reads back `(elem, true)` and every other key reads as before |
| Maps.LookupAfterDelete | maps.go:95-105 | after `delete(m, key)` the key reads `(zero, false)` and every other key reads as before |
| Maps.Increment | maps.go:227-229 | `m[key]++` adds `key` to the keys, raises its count (0 when absent) by exactly 1, and changes no other entry |
| Maps.UsersFromKeys | maps.go:39-45 | the loop's map has exactly the listed names as keys |
| Maps.UsersFromLastWins | maps.go:39-45 | each name maps to the user with the phone number at its last index, since later writes overwrite earlier ones |
| Maps.GetUserMap | maps.go:34-47 | fails with "invalid sizes" iff the lengths differ; otherwise the keys are exactly the names, and each name holds the number at its last index |
| Maps.DeleteIfNecessary | maps.go:119-129 | an absent name gives `(false, "not found")` and a present, unscheduled name gives `(false, nil)`, both with the map unchanged. A scheduled name gives `(true, nil)` with only that key removed. Entries stay keyed by their own names |
| Maps.AddNested | maps.go:202-217 | needs the inner map under `path`, if any, to be non-nil, since writing into a nil map panics. A missing path gets the inner map `{country: 1}`. An existing inner map becomes itself with `country` incremented. Every other path keeps its inner map as it was, so if no inner map was nil before, none is after. `m[path][country]` rises by exactly 1 and no other `(path, country)` count changes |
| Maps.Add | maps.go:210-217 | the caller's map becomes the `AddNested` update of its old value. A missing path reads as a nil inner map, so the `make` and store of lines 212-215 are what let `mm[country]++` write |
| Maps.AddHit | maps.go:222-229 | the caller's struct-keyed map becomes the `Increment` of its old value at `Key{path, country}` |
| Maps.AddKeepsSameTally | maps.go:220-233 | the map-of-maps design and the struct-key design agree on every `(path, country)` count after the same visit, if they agreed before (a nil inner map counts as all zeros) |
| Mutexes.IncrementTimesCounts | Mutexes/1-Intro.go:83-92 | `n` increments of `key` raise its count by exactly `n` and leave every other key's count alone |
| Mutexes.SafeCounter.constructor | Mutexes/1-Intro.go:108-111 | a new counter has no counts and its lock free |
| Mutexes.SafeCounter.Lock | Mutexes/1-Intro.go:54 | `mux.Lock()` needs the lock free (a second `Lock` would block) and takes it |
| Mutexes.SafeCounter.Unlock | Mutexes/1-Intro.go:55 | the deferred `mux.Unlock()` needs the lock held and frees it |
| Mutexes.SafeCounter.Inc | Mutexes/1-Intro.go:53-57 | needs the lock free and leaves it free. The count of `key` rises by exactly 1, no other count changes, and counts stay positive |
| Mutexes.SafeCounter.Val | Mutexes/1-Intro.go:59-63 | needs the lock free and leaves it free. Returns the count of `key`, which is 0 for a key never incremented and never negative. The counts are not modified |
| Mutexes.SafeCounter.SlowIncrement | Mutexes/1-Intro.go:67-72 | the read-modify-write through `tempCounter` is `counts[key]++` |
| Mutexes.SafeCounter.IncMany | Mutexes/1-Intro.go:85-91 | `count` calls of `inc` for one email give `count` increments of that key (none when `count` is not positive) |
| Mutexes.RunTests | Mutexes/1-Intro.go:79-93 | after the harness's increments, each email's count has grown by the total count listed for it |
| Mutexes.FirstRunTallies | Mutexes/1-Intro.go:112-129 | the first harness run issues 52 increments for its first email, 98 for its second, and none for any other |
| Mutexes.FirstRun | Mutexes/1-Intro.go:107-129 | on a fresh counter the first harness run reads 52 for john@example.com and 98 for jill@example.com. An email never incremented reads 0 |
| Generics.SplitAnySlice | Generics/1-Intro.go:24-27 | the first part has length `len(s)/2`, the parts concatenate to `s`, and the second part is the first's length or one longer |
| Generics.GetLastOfAppend | Generics/1-Intro.go:76-82 | `getLast` of an empty slice is the zero value, and of a slice ending in `x` it is `x` |
| Generics.GetLastOfSecondHalf | Generics/1-Intro.go:76-82 | the last element of a slice is the last element of the second half of its split |
| Generics.SplitFourInts | Generics/1-Intro.go:32-33 | `splitAnySlice([]int{0, 1, 2, 3})` gives `[0 1]` and `[2 3]` |
| Messages.CanSendIffBothReachable | chapter4.go:104-109 | a message can be sent iff the sender and the recipient both have a non-empty name and a non-zero number |
| Messages.MessageTextIrrelevant | chapter4.go:93-109 | the message text never changes the outcome |
| Messages.IncompleteSenderCannotSend | chapter4.go:104-109 | a sender without a name, or with number 0, can never send, whoever the recipient is |
| Messages.HarnessCases | chapter4.go:133-175 | the first and third harness messages can be sent; the second (no sender name) and the fourth (sender number 0) cannot |
| Profanity.ReplaceAll | Pointers/2-Syntax.go:37-39 | a replacement of the same length as the word keeps the string's length |
| Profanity.ReplaceAllAbsent | Pointers/2-Syntax.go:37-39 | a string without the word is returned unchanged |
| Profanity.ReplaceAllRemoves | Pointers/2-Syntax.go:37-39 | after masking a word that has no `*` with a mask of `*`s, no occurrence of the word is left |
| Profanity.ReplaceAllKeepsAbsent | Pointers/2-Syntax.go:37-39 | masking never creates an occurrence of a word without `*`, so a word removed earlier stays removed |
| Profanity.ReplaceAllOnlyMasks | Pointers/2-Syntax.go:37-39 | a same-length mask changes characters only into `*` |
| Profanity.ReplaceAllKeepsUncovered | Pointers/2-Syntax.go:37-39 | a same-length replacement leaves unchanged every character that no occurrence of the word covers |
| Profanity.ReplaceAllMasksCovered | Pointers/2-Syntax.go:37-39 | masking a word whose occurrences cannot overlap turns every character of every occurrence into `*` |
| Profanity.Censor | Pointers/2-Syntax.go:36-39 | the three rewrites, in order, keep the message's length |
| Profanity.CensorRemovesAll | Pointers/2-Syntax.go:37-39 | the filtered message contains none of "dang", "shoot" and "heck" |
| Profanity.CensorClean | Pointers/2-Syntax.go:37-40 | a message containing none of the three words is unchanged |
| Profanity.CensorOnlyMasks | Pointers/2-Syntax.go:37-39 | every character of the filtered message is the original character or `*` |
| Profanity.CensorKeepsUncovered | Pointers/2-Syntax.go:37-39 | a character that no occurrence of "dang", "shoot" or "heck" covers is unchanged |
| Profanity.CensorMasksCovered | Pointers/2-Syntax.go:37-39 | every character of every occurrence of "dang", "shoot" or "heck" in the message becomes `*` |
| Profanity.CensorExactly | Pointers/2-Syntax.go:37-39 | the filtered message is `*` exactly where one of the three words occurs in the original, and the original character everywhere else |
| Profanity.RemoveProfanity | Pointers/2-Syntax.go:35-41 | the message behind the pointer becomes its censored text, and nothing else is written |
| Channels.Channel.constructor | Concurrency/3-BufferedChannels.go:20-22 | `make(chan T, n)` is an open, empty channel of capacity `n` |
| Channels.Channel.Send | Concurrency/3-BufferedChannels.go:24 | a send needs room in the buffer and an open channel, and appends the value at the back |
| Channels.Channel.Receive | Concurrency/4-ClosingChannels.go:12-14 | a receive needs a non-empty buffer or a closed channel. `ok` holds iff a value was buffered, and that value is the oldest one. Otherwise the receive yields the zero value and the buffer stays empty |
| Channels.Channel.Close | Concurrency/4-ClosingChannels.go:2-8 | closing marks an open channel closed |
| BufferedChannels.Received | Concurrency/3-BufferedChannels.go:45-46 | `batchSize` receives yield the buffered values in order, then zero values once a closed channel is drained |
| BufferedChannels.AddEmailsToQueue | Concurrency/3-BufferedChannels.go:34-40 | a fresh channel of capacity `len(emails)` whose buffer holds the emails in their order, still open |
| BufferedChannels.SendEmails | Concurrency/3-BufferedChannels.go:44-49 | receives the first `batchSize` values in FIFO order and leaves the rest buffered |
| BufferedChannels.Test | Concurrency/3-BufferedChannels.go:51-57 | the emails come out exactly as they were queued, and the queue ends empty |
| ClosingChannels.Reports | Concurrency/4-ClosingChannels.go:64-66 | batch `i` carries `i*23 + 32%17 = i*23 + 15` reports |
| ClosingChannels.SumReports | Concurrency/4-ClosingChannels.go:63-71 | the reports of `n` batches total `15n + 23n(n-1)/2` |
| ClosingChannels.HarnessTotals | Concurrency/4-ClosingChannels.go:56-61 | the harness's runs for 3, 4, 5 and 6 batches total 114, 198, 305 and 435 |
| ClosingChannels.SendReports | Concurrency/4-ClosingChannels.go:63-71 | sends exactly `numBatches` values (none when not positive), in order, then closes the channel |
| ClosingChannels.CountReports | Concurrency/4-ClosingChannels.go:32-42 | returns the sum of everything received before closure (0 for an empty closed stream) and drains the channel |
| ClosingChannels.Test | Concurrency/4-ClosingChannels.go:46-54 | the total counted equals the total sent, `15n + 23n(n-1)/2` for `n` batches |
| RangeChannels.FibSeq | Concurrency/5-Range.go:43-47 | the `k`-th value is `Fib(k)`, with `Fib(0) = 0` and `Fib(1) = 1` |
| RangeChannels.Fibonacci | Concurrency/5-Range.go:43-51 | sends exactly `n` values (none when `n` is not positive), the `k`-th being `Fib(k)`, then closes the channel. The loop keeps `x = Fib(i)` and `y = Fib(i+1)` |
| RangeChannels.Range | Concurrency/5-Range.go:4-8 | `for v := range ch` receives every value in send order and ends exactly when the channel is closed and drained |
| RangeChannels.ConcurrentFib | Concurrency/5-Range.go:19-26 | what the range loop prints is the first `n` Fibonacci numbers, in order |
| RangeChannels.FirstTen | Concurrency/5-Range.go:37 | the run for 10 prints 0 1 1 2 3 5 8 13 21 34 |

## Left out

- Goroutines, `sync.WaitGroup` and real mutex contention. Every operation runs to completion, one at a time. `SafeCounter.Lock` requires the lock to be free, because a second `Lock` would block.
- Mutexes.SafeCounter.SlowIncrement: requires the lock to be held. The Go function does not check this; it is correct only under `inc`, its one caller.
- The `safeCounter` value receiver. Copies of the struct share one map and one mutex, so they are modelled as one object.
- Channel interleaving. Each producer runs to completion before its consumer, which for one producer and one consumer over a FIFO yields the same sequence of received values.
  - An unbuffered channel (`make(chan int)`) is given a capacity equal to the number of values its producer sends.
  - A consumer that would wait for an open, empty channel requires the channel to be closed.
- Concurrency/6-Select.go (select multiplexing, tickers and timeouts), Concurrency/1-Intro.go and Concurrency/2-Channels.go. Their behaviour is timing and scheduling.
- All `fmt` output. Printed values become returned sequences or out-parameters. `time.Sleep` calls are dropped.
- Floating-point exercises (Generics/3-Constrains.go, chapter5.go, chapter6.go, Development/0-Intro.go), `concat`'s call to a foreign `String()` method, and the prose-only files. They are not part of this model.
- Slices.Append: `data` is taken as a value. A `data` slice that aliases the destination's backing array is read as it was before the call.
- Slices.Append: three-index slices are not modelled. A nil slice is a slice over an empty array.
- Maps.Add, Maps.AddHit: the outer map is never nil here, since the harness makes it with `make`. Writing into a nil outer map panics in Go, and that case is not modelled. A nil inner map is modelled as `None`.
- Maps.Add: inner maps are held as values and the updated inner map is stored back under its path. Aliasing of one inner map under several paths is not modelled; `add` never creates it.
- Profanity.ReplaceAll: requires a non-empty word. With an empty pattern, `strings.ReplaceAll` inserts the replacement at the start, after every character and at the end (`"ab"` becomes `"XaXbX"`). The filter never uses that case.
- The six harness messages of removeProfanity are not evaluated as concrete strings. `Profanity.CensorExactly` determines the output for every message.
- Go's 64-bit `int` overflow in the counters, in `fibonacci` and in phone numbers. Integers are unbounded here, and the harness values stay far below the limit.
- Generics.GetLast and Messages.CanSendMessage carry no contract of their own. What they promise is stated by the lemmas named in the table.
