# WhatsApp-web client helpers, modelled in Dafny

This project models the general-purpose helpers of the chat client's
`app.js`, the script every page of the web client loads. It covers:

- the phone-number cleaner and the Indonesian phone-number check;
- the relative date shown beside a chat ("Baru saja", "5 menit lalu", ...);
- the forbidden-name check that blocks accounts;
- the avatar colour derived from a name;
- the online check from a last-seen time;
- the unit chosen for a file size;
- the expiring key/value cache kept in the browser's `localStorage`.

Time is always a parameter (`now`, in milliseconds) instead of `Date.now()`
or `new Date()`. A JavaScript value that may be `null` or `undefined` is an
`Option`. Numbers are exact integers.

One module per component, one file per module:

| file | module | models |
|---|---|---|
| wrappers.dfy | Wrappers | `Option` |
| decimal.dfy | Decimal | integer-to-text conversion as JavaScript writes integers up to 2^53 in magnitude, and its inverse |
| phone.dfy | Phone | `formatPhoneNumber`, `isValidIndonesianPhone` |
| chat_date.dfy | ChatDate | `formatChatDate` |
| forbidden_words.dfy | ForbiddenWords | `FORBIDDEN_NAMES`, `containsForbiddenWords` |
| avatar_color.dfy | AvatarColor | `stringToColor`, ToInt32 and `<<` |
| presence.dfy | Presence | `checkUserOnline` |
| file_size.dfy | FileSize | `formatFileSize` |
| expiry_storage.dfy | ExpiryStorage | `setLocalStorageWithExpiry`, `getLocalStorageWithExpiry` |

The pure helpers are functions with lemmas. `stringToColor` is a method with
the source's loop, and it is proved against the function `ColorOf`. The cache
is a class `LocalStorage` whose `items` map stands for `localStorage`. Its two
methods are proved against the functions `Put` and `Fetch`, and the lemmas
state what the cache promises about those functions. The method
`ExpiryScenario` is a client of the class: it writes an entry, reads it
while live and again once expired (when the read also removes it), and its
assertions follow from the contracts of `SetWithExpiry` and `GetWithExpiry` alone, never from their
bodies.

Points where the model settles something the code leaves implicit:

- Only `<<` wraps the avatar hash to 32 bits (ToInt32, section 7.1.6 of
  ECMA-262). The `+` and `-` around the shift do not wrap, so the hash grows
  well beyond 32 bits. For example, "Haerul Amin" hashes to 4711416852.
  `HashBound` and `ExactInDoubles` show that every value stays below 2^53 for
  names of up to four million code units. Doubles are exact on integers of
  that size, so the exact-integer model agrees with the browser.
- `new Date(t)` is invalid when |t| > 8.64 * 10^15 (TimeClip). The elapsed
  time is then NaN, every comparison fails, and the calendar-date branch
  prints "Invalid Date". The model has a separate `InvalidDate` result for
  this.
- A timestamp in the future has a negative elapsed time and shows "Baru saja".
- An expired cache entry is removed only when it is read. Nothing sweeps the
  storage, so an entry that is never read again stays there.

## Model

| member | source | states |
|---|---|---|
| Decimal.NatToString | app.js:36 | the decimal text of a count is non-empty, all digits, and has no leading zero |
| Decimal.ParseNatToString | app.js:36 | reading the digits back gives the count again |
| Decimal.NatToStringInjective | app.js:36 | different counts have different texts |
| Decimal.IntToString | app.js:123 | `String(n)` for n of magnitude at most 2^53: a leading '-' exactly for negatives, then digits without a leading zero |
| Decimal.IntToStringRoundTrip | app.js:123 | parsing the text of an integer gives the integer back |
| Decimal.IntToStringInjective | app.js:123 | different integers have different texts |
| Decimal.NatToStringPrefix | app.js:36-48 | a number followed by a suffix that starts with a non-digit splits back in exactly one way |
| Phone.FormatPhoneNumber | app.js:18-20 | the cleaned number has only digits and is no longer than the input |
| Phone.FormatConcat | app.js:19 | cleaning a concatenation gives the concatenation of the cleaned parts, so the digits keep their order |
| Phone.FormatSingle | app.js:19 | a single character is kept exactly when it is a digit '0'..'9' |
| Phone.FormatKeepsDigits | app.js:19 | a string of digits is returned unchanged |
| Phone.FormatIdempotent | app.js:18-20 | cleaning twice gives the same result as cleaning once |
| Phone.FormatCountsDigits | app.js:19 | each digit occurs in the output as often as in the input, and no other character occurs |
| Phone.FormatIgnoresSeparator | app.js:19 | inserting a non-digit anywhere does not change the cleaned number |
| Phone.IsValidIndonesianPhone | app.js:65-68 | valid iff the input holds between 10 and 14 digit characters, counted by position in the raw input |
| Phone.FormatLengthCountsDigits | app.js:66 | the cleaned number is exactly as long as the number of digit positions in the input |
| Phone.ValidIgnoresSeparator | app.js:65-68 | inserting a separator never changes whether a number is valid |
| Phone.ValidIffCleanedValid | app.js:65-68 | a number is valid iff its cleaned form is valid |
| Phone.ValidDigitString | app.js:66-67 | a string of digits is valid iff its length is in [10, 14] |
| Phone.ValidExamples | app.js:66-67 | strings of 10 and 14 digits are valid |
| Phone.InvalidExamples | app.js:66-67 | strings of 9 and 15 digits are not valid |
| ChatDate.FormatChatDate | app.js:23-56 | elapsed time < 1 minute, future included, is "just now"; minutes are in [1, 59], hours in [1, 23] and days in [1, 6], each being the number of whole units elapsed; a week or more gives the full date; an out-of-range timestamp gives an invalid date; a tie at a threshold goes to the coarser bucket |
| ChatDate.OlderIsNeverNewer | app.js:29-56 | an older message gets a bucket at least as coarse, and in the same bucket a count at least as large |
| ChatDate.Thresholds | app.js:29-49 | 30 s ago and 5 s in the future are "just now"; exactly 1 minute, 1 hour and 1 day ago give a count of 1 in that unit; 1 ms short of a week is 6 days; exactly a week gives the full date |
| ChatDate.RelativeText | app.js:30-48 | every bucket except the calendar date has a fixed text |
| ChatDate.RelativeTextInjective | app.js:30-48 | two different buckets or counts never show the same text |
| ForbiddenWords.LowerChar | app.js:13 | the result is never an ASCII capital; capitals move by 32 and every other character is unchanged |
| ForbiddenWords.ToLower | app.js:13 | same length, each character lower-cased in place |
| ForbiddenWords.ToLowerIdempotent | app.js:13 | lower-casing twice gives the same result as lower-casing once |
| ForbiddenWords.Includes | app.js:14 | the search succeeds iff the word occurs as a contiguous substring at some position |
| ForbiddenWords.SomeIncluded | app.js:14 | true iff some word of the list occurs somewhere in the text |
| ForbiddenWords.ContainsForbiddenWords | app.js:10-15 | false for missing or empty text; otherwise true iff some listed word occurs in the lower-cased text |
| ForbiddenWords.CaseInsensitive | app.js:13-14 | a text and its lower-cased form get the same verdict |
| ForbiddenWords.ToLowerSlice | app.js:13 | lower-casing and taking a slice commute |
| ForbiddenWords.ForbiddenInContext | app.js:13-14 | any text with a forbidden word inside it, in any case, is forbidden |
| ForbiddenWords.PrefixOccurs | app.js:14 | an occurrence of a word is also an occurrence of each of its prefixes |
| ForbiddenWords.ThreeWordsSuffice | app.js:7-14 | the six-word list gives the same verdict as "adam", "tut" and "haer" alone |
| ForbiddenWords.ExampleForbidden | app.js:10-15 | "Adamson" is forbidden |
| ForbiddenWords.ExampleAllowed | app.js:10-15 | "Budi", the empty text and a missing text are not forbidden |
| AvatarColor.ToInt32 | app.js:154 | the result is in [-2^31, 2^31) and equal to the input modulo 2^32 |
| AvatarColor.ToInt32OfInt32 | app.js:154 | ToInt32 leaves signed 32-bit values unchanged |
| AvatarColor.ShiftLeft5 | app.js:154 | `x << 5` is a signed 32-bit value |
| AvatarColor.ShiftLeft5Wraps | app.js:154 | `x << 5` equals ToInt32(32 * x): wrapping the operand first makes no difference |
| AvatarColor.ToInt32Congruent | app.js:154 | ToInt32 ignores multiples of 2^32 |
| AvatarColor.ShiftLeft5Small | app.js:154 | for operands below 2^26 in magnitude, `x << 5` is 32 * x without wrapping |
| AvatarColor.ColorIndex | app.js:163 | the palette index is in [0, 12) and congruent to abs(hash) modulo 12 |
| AvatarColor.ColorOf | app.js:157-163 | the colour is always one of the 12 palette entries |
| AvatarColor.StringToColor | app.js:151-164 | the loop computes the hash of the whole string and returns its palette entry |
| AvatarColor.StepBound | app.js:154 | one round grows the magnitude of the hash by at most 2^31 + 0xFFFF |
| AvatarColor.HashBound | app.js:152-155 | after n code units the hash has magnitude at most n * (2^31 + 0xFFFF) |
| AvatarColor.ExactInDoubles | app.js:152-155 | for up to 4 million code units, the hash and the shifted difference stay below 2^53 |
| AvatarColor.HashAppend | app.js:153-155 | the hash of s + [c] is one more round on the hash of s |
| AvatarColor.HashPrefix | app.js:153-155 | the hash of the first k + 1 units is one more round on the hash of the first k |
| AvatarColor.Examples | app.js:151-164 | the empty name gets the first colour; "A" hashes to 65 and gets the sixth |
| AvatarColor.ExampleSteps | app.js:154 | the eleven rounds on "Haerul Amin", value by value |
| AvatarColor.ExampleBeyond32Bits | app.js:152-155 | "Haerul Amin" hashes to 4711416852, beyond 2^32 |
| AvatarColor.ExampleColor | app.js:163 | a hash of 4711416852 selects the first colour |
| AvatarColor.Utf16 | app.js:154 | a string has at least as many UTF-16 code units as characters, and at most twice as many |
| AvatarColor.EncodeChar | app.js:154 | one character takes one or two code units |
| AvatarColor.FromUtf16 | app.js:154 | decoding UTF-16 never yields more characters than there are code units |
| AvatarColor.Utf16RoundTrip | app.js:154 | decoding the UTF-16 form of a string gives the string back, so the encoding loses nothing |
| AvatarColor.Utf16Concat | app.js:153-155 | the code units of a concatenation are the code units of the parts in order, so the loop sees the characters one after another |
| AvatarColor.Utf16Single | app.js:154 | the code units of a one-character string are that character's encoding |
| AvatarColor.SurrogatePair | app.js:154 | a character above U+FFFF is a high surrogate followed by a low surrogate that together give the character back |
| AvatarColor.Utf16Bmp | app.js:154 | with no character above U+FFFF, `charCodeAt(i)` is the code of the i-th character and `str.length` is the number of characters |
| Presence.OnlineEarlier | app.js:145-148 | a user online at some time was also online at every earlier time |
| Presence.OfflineLater | app.js:145-148 | a user offline at some time stays offline at every later time |
| Presence.WindowEdges | app.js:145-148 | online at lastSeen, before it and at lastSeen + 119999, offline at lastSeen + 120000, never online with a missing or zero last-seen time; with OnlineEarlier and OfflineLater this fixes the answer at every time |
| FileSize.FormatFileSize | app.js:122-127 | "B" iff below 1024, and then the text is the integer followed by " B"; otherwise the unit's factor is at most the size, and below GB the size is under 1024 times the factor |
| FileSize.UnitUnique | app.js:124-126 | the unit whose range holds the size is the one chosen |
| FileSize.UnitMonotone | app.js:122-127 | a larger size never gets a smaller unit |
| FileSize.BytesTextRoundTrip | app.js:123 | the byte count can be read back from its " B" text |
| FileSize.Examples | app.js:122-126 | 500 and 1023 print as "500 B" and "1023 B"; 1024 and 2048 are KB; 1048576 is MB; 1073741824 is GB |
| ExpiryStorage.Put | app.js:71-77 | after a write the key holds the value with expiry now + ttl, and every other key is unchanged |
| ExpiryStorage.Fetch | app.js:80-93 | a value comes back iff the key is present and now <= expiry; an expired key is removed; every other entry is unchanged |
| ExpiryStorage.PutThenFetchLive | app.js:71-92 | a write followed by a read no later than the expiry returns the value and leaves the storage unchanged |
| ExpiryStorage.PutThenFetchExpired | app.js:71-92 | a write followed by a read after the expiry returns None and leaves the storage as it was without the key |
| ExpiryStorage.FetchAbsent | app.js:81-83 | reading an absent key returns None and changes nothing |
| ExpiryStorage.FetchIsolated | app.js:87-88 | a read leaves every other key as it was |
| ExpiryStorage.FetchIdempotent | app.js:80-93 | a second read at the same time gives the same answer and the same storage |
| ExpiryStorage.ExpiredStaysGone | app.js:83-90 | without a new write, a key that reads as None still reads as None later |
| ExpiryStorage.PutOverwrites | app.js:76 | a second write to a key replaces the first write entirely |
| ExpiryStorage.LocalStorage.SetWithExpiry | app.js:71-77 | the storage after the call is the old storage with the write applied |
| ExpiryStorage.LocalStorage.GetWithExpiry | app.js:80-93 | the result and the new storage are what the read promises for the old storage |

## Left out

- `showNotification` (app.js:96-119): it uses the browser Notification API, an asynchronous permission request and `alert`, which are all I/O.
- `debounce` (app.js:167-177): its point is asynchronous scheduling with `setTimeout`. There is no event loop in the model.
- `generateMessageId` (app.js:60-62): it depends on the clock and `Math.random`, and its uniqueness is only probabilistic.
- `encryptMessage` / `decryptMessage` (app.js:130-142): these wrap the browser's `btoa`, `atob` and URI percent-encoding, whose code is not part of this model.
- `formatTime24` and the calendar-date text of `formatChatDate` (app.js:52-56, 180-187): these depend on the browser's locale data. The model keeps the date as `FullDate(timestamp)` and gives it no text.
- FileSize.FormatFileSize: the one-decimal text for KB, MB and GB (`toFixed(1)` of a floating-point quotient) is not modelled; only the unit is.
- Decimal.IntToString: beyond 2^53 in magnitude, JavaScript writes the shortest digits that identify the double, padded with zeros, and from 10^21 it uses exponent notation. The model always writes every digit of the exact integer.
- FileSize.FormatFileSize: for byte counts below -2^53, the " B" text differs as described for Decimal.IntToString. For example, -2^60 prints as "-1152921504606847000 B" in JavaScript, where the model writes "-1152921504606846976 B".
- ForbiddenWords.ToLower: folds only ASCII capitals. JavaScript's `toLowerCase` folds all of Unicode.
- ForbiddenWords.ContainsForbiddenWords: a truthy non-string argument makes `toLowerCase` throw in the source. The model takes only strings or a missing value.
- ExpiryStorage.Fetch: the stored value is the value itself, not its JSON text. JSON's losses (such as `undefined` fields) and a parse failure on a malformed stored string are not modelled.
- ExpiryStorage.LocalStorage.SetWithExpiry: a storage quota error thrown by `setItem` is not modelled.
- AvatarColor.StringToColor: its name is taken as UTF-16 code units. `Utf16` converts a Dafny string. Double rounding beyond 2^53 is not modelled, which `ExactInDoubles` shows cannot happen below four million code units.
- Non-integer numbers, NaN and Infinity as arguments (for example an undefined `ttl`) are not modelled; all times and sizes are integers.
- ChatDate.FormatChatDate: only numeric timestamps are modelled; `new Date` given a Date object or a date string is not.
- The presence tracker, group service and status service that use these helpers are not part of this model. Their code is not in `app.js`.
