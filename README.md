# snapcast_admin: update coercion, list ordering and episode rendering

A Dafny model of the decision logic of `snapcast_admin`, a command-line client for a podcast-hosting REST API.

- **Update coercion** (`handle_update` in `src/main.rs`). The raw text of an `update` command becomes the JSON value for the named field.
  - `media_duration` is split on `:`, read right to left and summed as `c_i·60^i` in `u32` arithmetic.
  - `pub_date` is parsed as `YYYY-MM-DD HH:MM`. It is placed in the local UTC offset and written as an RFC 3339 date-time (section 5.6 of RFC 3339).
  - Every other field is sent as a JSON string.
  - The result goes out as a PATCH to `<base>/<feed>/episode/<uuid>`, with the body `{field: value}`.
- **List ordering** (`handle_list`). The fetched episodes are sorted in place and stably, by `id` or by the instant of `pub_date`.
- **Episode model** (`src/snapcast.rs`).
  - The registry of the thirteen updatable fields.
  - The episode record.
  - The one-line rendering used by the listing: the duration split into hours, minutes and seconds, and the title cut to the terminal width minus 38.

The failure modes of the Rust code are explicit in the `Outcome` datatype:

| failure | becomes |
|---|---|
| a `?` that propagates an error | `Err` |
| a failed `unwrap` | `Panic` |
| checked `u32` overflow | `Panic` |
| the `usize` underflow of `(w as usize) - 38` | `Panic` |

Arithmetic is modelled as in a debug build.

The project is split into modules:

| file | module | content |
|---|---|---|
| `rust.dfy` | `Rust` | fixed-width integers, `u32::from_str`, `str::split`, integer `Display` with a width, truncating `/` and `%` |
| `time.dfy` | `Time` | the parts of the `time` crate in use: the minute-resolution date parser, RFC 3339 output, a reader for that output used to state its round trip, and the instant order of `OffsetDateTime` |
| `snapcast.dfy` | `Snapcast` | `DATABASE_FIELDS`, `Episode` and `Display::fmt` |
| `update.dfy` | `Update` | the field coercion and the PATCH request |
| `listing.dfy` | `Listing` | the sort |

The sort has two levels.
- `StableSort` specifies it on values.
- `SortBy` is the in-place insertion sort over an `array`, proved equal to `StableSort`.

The properties of `StableSort` (sorted, a permutation, stable) are proved as lemmas. `StableSortUnique` shows that sortedness and stability alone determine the result. The model therefore describes what `sort_by` yields, whatever algorithm the standard library uses.

## Model

| member | source | states |
|---|---|---|
| Rust.ParseU32 | src/main.rs:91 | `parse::<u32>()` succeeds only on a non-empty text that starts with a digit or `+`. Any non-empty digit string whose value fits in 32 bits parses to that value. |
| Rust.ParseU32Shape | src/main.rs:91 | A text that parses is an optional `+` followed by one or more digits, and those digits are the zero-padded rendering of the parsed `u32`. Nothing else, such as a letter, a sign, a space or a value past `u32::MAX`, can appear in it. |
| Rust.ParseU32OfPad | src/main.rs:91 | The converse: the zero-padded digits of any `u32`, with or without one leading `+`, parse to that value. |
| Rust.ParseU32Refusals | src/main.rs:91 | `"1a"`, `"-1"`, `" 1"`, `""`, `"+"` and `"++1"` are refused. |
| Rust.ParseU32Edges | src/main.rs:91 | `"4294967296"` (`2^32`) is refused, and `"+007"` parses to 7. |
| Rust.ParseU32Decimal | src/main.rs:91 | The decimal text of every `u32` parses back to the same number. |
| Rust.Split | src/main.rs:88 | `split(':')` yields at least one piece, and no piece contains the separator. Joining the pieces with the separator gives the input back. |
| Rust.SplitJoin | src/main.rs:88 | Splitting the join of separator-free pieces returns exactly those pieces, including empty ones. |
| Rust.TruncDiv | src/snapcast.rs:63-65 | Rust's `/` truncates toward zero. For a non-negative dividend `a`, `b·q ≤ a < b·(q+1)`. For a negative one, `b·(q−1) < a ≤ b·q`. |
| Rust.TruncRem | src/snapcast.rs:63-65 | Rust's `%` satisfies `a == b*q + r` with the truncated quotient. The remainder has the sign of the dividend and is smaller than the divisor in magnitude. |
| Rust.FormatInt | src/snapcast.rs:59 | `{:w}` and `{:0w}` print exactly `max(w, digits + sign)` characters. |
| Rust.FormatZeroPaddedValue | src/snapcast.rs:59 | `{:0w}` of a non-negative number is all digits, and it reads back as that number. |
| Rust.FormatSpacePaddedLeads | src/snapcast.rs:59 | `{:w}` of a number narrower than `w` is spaces followed by its digits, so it starts with a space. |
| Rust.FormatFullWidth | src/snapcast.rs:59 | A number at least as wide as its field is printed bare, with no padding. |
| Time.ParseMinutes | src/main.rs:95-98 | A successful parse of `[year]-[month]-[day] [hour]:[minute]` is a valid calendar date and time with zero seconds, read from a text of 16 characters (17 with a sign). |
| Time.ParseMinutesPlus | src/main.rs:95-98 | A `+` before the year changes nothing: `+YYYY-MM-DD HH:MM` parses exactly as `YYYY-MM-DD HH:MM` does. |
| Time.ParseMinutesMinus | src/main.rs:95-98 | A `-` before an unsigned text that parses gives the same month, day, hour and minute with the year negated, so `-0000` is year 0. |
| Time.ParseMinutesMinusNone | src/main.rs:95-98 | A `-` before an unsigned text that does not parse does not make it parse, because the year range and the leap-year rule are symmetric. |
| Time.ParseMinutesText | src/main.rs:95-98 | Parsing the printed form of any unsigned date and time in whole minutes returns it. |
| Time.MinutesTextOfParse | src/main.rs:95-98 | An unsigned text that parses is exactly the printed form of what it parses to. |
| Time.FormatRfc3339 | src/main.rs:100-101 | `format(&Rfc3339)` fails exactly for a negative year, for offset hours of 24 or more, or for an offset with a seconds part. A success is 19 characters followed by the offset text (`Z` or `±HH:MM`). |
| Time.ReadFormatRfc3339 | src/main.rs:99-101 | Reading back the RFC 3339 text of a value gives the same local date and time and the same offset. |
| Time.SecondsTextOfParse | src/main.rs:95-101 | The date-time part of a coerced `pub_date` is the input with `T` in place of the space and `:00` appended. |
| Time.ReadSecondsText | src/main.rs:100 | The `YYYY-MM-DDTHH:MM:SS` part of the output reads back to the date and time. |
| Time.ReadOffsetText | src/main.rs:100 | The offset part (`Z` or `±HH:MM`) reads back to the offset. |
| Time.DateText | src/snapcast.rs:62 | `[year]-[month]-[day]` takes 10 characters for a year of 0 or later, and 11 for a negative year. |
| Snapcast.DatabaseFieldsShape | src/snapcast.rs:7-21 | The registry has 13 pairwise distinct names. None of them is `id`, `uuid` or `podcast_uuid`. |
| Snapcast.DurationOf | src/snapcast.rs:46 | An absent `media_duration` counts as 0 seconds. A present one is used as is. |
| Snapcast.DurationParts | src/snapcast.rs:63-65 | Hours, minutes and seconds recompose to the duration. For a non-negative duration, the hours are `d / 3600` and the minutes and seconds are in `0..59`. For a negative one, all three are non-positive. |
| Snapcast.ShownTitle | src/snapcast.rs:49-56 | With no terminal, the whole title is shown. With width `w ≥ 38`, the first `min(len, w - 38)` characters are shown. With `w < 38`, the subtraction panics. |
| Snapcast.Render | src/snapcast.rs:44-69 | A line is rendered exactly when the width is unknown or at least 38, and fails with the subtraction panic otherwise. A rendered line is the fixed columns followed by the shown title: the whole title, or a prefix of length `min(len, w - 38)`. |
| Snapcast.LineFitsWidth | src/snapcast.rs:57-68 | The columns take exactly 38 characters when the id has at most three characters, the year is in `0..9999`, the duration is under 100 hours and the size text has six characters. A rendered line then never exceeds the terminal width. |
| Update.Pow60Bounds | src/main.rs:91 | `u32::pow(60, i)` fits in 32 bits for `i ≤ 5` and overflows for `i ≥ 6`. |
| Update.Reverse | src/main.rs:89 | `.rev()` keeps the length, and item `k` is item `len-1-k` of the input. |
| Update.SumWeighted | src/main.rs:90-92 | The `enumerate/map/sum` pipeline never returns an error: each of its failures is a panic. |
| Update.SumWeightedSpec | src/main.rs:90-92 | The running sum succeeds exactly when every remaining piece parses, no power beyond `60^5` is taken, and the total fits in 32 bits. Its value is then the accumulator plus `Σ c_k·60^(i+k)`. |
| Update.WeightedIsClock | src/main.rs:87-92 | Summing `c_i·60^i` over the pieces read right to left equals reading `HH:MM:SS` left to right as `(h·60 + m)·60 + s`. |
| Update.ReverseAllU32 | src/main.rs:89-91 | Reversing the pieces keeps "every piece parses" and reverses their values. |
| Update.CoerceDurationSpec | src/main.rs:86-93 | Duration coercion succeeds exactly when every piece is a decimal `u32`, there are at most six pieces, and the clock value fits in 32 bits. The result is then the clock value. Every failure is a panic. |
| Update.CoerceJoined | src/main.rs:87-92 | Up to six `:`-free pieces that parse coerce, once joined by `:`, to their clock value. |
| Update.CoerceDurationExamples | src/main.rs:87-92 | "90" → 90, "1:30" → 90, "1:01:01" → 3661, and "1:0:0:0" → 216000, because a fourth piece is weighted by `60^3`. |
| Update.CoerceDurationRejects | src/main.rs:91 | "abc", " 1", "-5" and "1::2" panic at the `unwrap`. "+5" is accepted as 5. |
| Update.CoerceThreePieces | src/main.rs:87-92 | `a:b:c` with pieces parsing to `h`, `m`, `s` coerces to `(h·60 + m)·60 + s` when that fits in 32 bits. |
| Update.CoerceThreePiecesBadHours | src/main.rs:91 | `a:b:c` panics at the `unwrap` when the minute and second pieces parse to values below 60 but the hour piece does not parse. Without that condition, an oversized minute piece can panic at the multiplication first. |
| Update.HmsColumnCoercion | src/snapcast.rs:59-65 | The `{hh:2}:{mm:02}:{ss:02}` text of `h·3600 + m·60 + s` coerces back to that total when `h ≥ 10`. When `h < 10`, the padding space makes the coercion panic. |
| Update.RenderedDurationCoercion | src/snapcast.rs:63-65 | The duration column of a listing line coerces back to the duration exactly when it shows at least ten hours. Otherwise it panics. |
| Update.ClockRoundTrip | src/main.rs:87-92 | Every `u32` count of seconds, written as unpadded hours, then two-digit minutes and seconds (`h:mm:ss`), coerces back to that count. |
| Update.PaddedColumnRoundTrip | src/snapcast.rs:63-65 | Take the hour, minute and second fields the listing computes for any non-negative duration. Written with a zero-padded hour (`{hh:02}` in place of the listing's space-padded `{hh:2}`), they coerce back to that duration for any number of hours. |
| Update.CoercePubDate | src/main.rs:94-102 | The result is an error exactly when the text does not parse. It is `Ok` exactly when the text parses, a local offset is known, the year is not negative and the offset is whole minutes under 24 hours; the value then reads back to the parsed date and time in the local offset. A missing offset panics at the first `unwrap`, and a format failure at the second. |
| Update.SignedPubDate | src/main.rs:94-102 | `+YYYY-…` coerces exactly as `YYYY-…` does. `-YYYY-…` with a year above 0 panics at the formatting `unwrap`. `-0000-…` coerces as `0000-…` does. |
| Update.PubDateText | src/main.rs:94-102 | For an unsigned text that parses and a formattable offset, the value is the input with `T` for the space, `:00` seconds and the offset text appended. |
| Update.Coerce | src/main.rs:84-104 | `media_duration` becomes the JSON number of the duration coercion, or its panic. `pub_date` becomes the date coercion. Any other field becomes the raw text as a JSON string. |
| Update.RegistryPassthrough | src/main.rs:103 | Of the thirteen registry fields, exactly `media_duration` and `pub_date` are converted. The other eleven pass the raw text through unchanged. |
| Update.UpdateRequest | src/main.rs:106-111 | The request exists exactly when the coercion succeeds, and an error stays an error. It is a PATCH to `<base>/<feed>/episode/<uuid>` with the stored authorization and the one-member body `{field: value}`. |
| Update.UpdateAddressedByUuid | src/main.rs:106-108 | The target depends on the `uuid`, not the numeric id. Episodes sharing a `uuid` get the same request, and episodes with different `uuid`s get different URLs. |
| Listing.InsertStableSorted | src/main.rs:65-69 | Inserting an episode into a sorted list keeps it sorted. |
| Listing.StableSortSorted | src/main.rs:65-69 | The sorted listing is nondecreasing in the chosen key (the `id`, or the UTC instant of `pub_date`). |
| Listing.StableSortPermutes | src/main.rs:65 | The sorted listing is a permutation of the fetched episodes. |
| Listing.StableSortWithKey | src/main.rs:65 | Stability: for every key value, the episodes with that key appear in their fetched order. |
| Listing.StableSortUnique | src/main.rs:65-69 | Any list that is sorted by the key and keeps each key's episodes in fetched order equals the stable sort of the input. |
| Listing.SortByIdExample | src/main.rs:65-67 | Ids 3, 1, 2 are listed as 1, 2, 3. Two episodes with the same id keep their fetched order. |
| Listing.SortBy | src/main.rs:65-69 | The in-place sort leaves the array holding the stable sort of its old contents. |
| Listing.SortedListing | src/main.rs:54-69 | The listing order of the fetched episodes is their stable sort: sorted by the chosen key, a permutation of the input, and in fetched order among equal keys. |

## Left out

- HTTP is not modelled: `ureq` `get`/`patch`/`call`, JSON (de)serialisation and the response handling (`src/main.rs:54-63`, `:106-128`). The model covers only the PATCH target, authorization value and body, as data.
- The `Bearer ` prefix on the list request is left out. It is added twice (`src/main.rs:22-25` and `:60`) and belongs to header plumbing.
- `get_episode` and the `Info` command are left out. Both are network I/O and printing.
- Environment variables, clap parsing and `Args::update_from` (`src/main.rs:17-30`, `src/cli.rs`) are left out. Their two `value_parser` lists become preconditions: the sort key is `id` or `pub_date` (`Listing.ValidSortKey`), and the updated field is in the registry (`Update.UpdateRequest`).
- The `println!` loops are left out.
- `--find` is accepted but never used by the code, so there is nothing to model.
- `Download` has no arm in the dispatcher, so there is nothing to model.
- `terminal_size()` is left out. The width is a parameter, `None` when there is no terminal.
- `current_local_offset()` is left out. The offset is a parameter, `None` when the lookup fails.
- Snapcast.Columns: the size column `{:6.2}` of `media_size as f64 / 1000000.0` is floating point. It is a text parameter of `Render` and `Columns`.
- Release builds are not modelled. `u32` arithmetic there would wrap instead of panicking, and so would the width subtraction.
- Fractional seconds and nanoseconds in RFC 3339 output never arise on the coercion path, because the parser yields whole minutes. The formatter is modelled only for values without them.
- Date parsing is modelled only for the one format description the client uses, not the `time` crate's general parser.
- Listing.SortBy sorts by insertion, while the standard library uses a merge-based stable sort. `Listing.StableSortUnique` shows the result does not depend on the algorithm. The number of comparisons is not modelled.
- Snapcast.ShownTitle follows the code: below 38 columns `(w as usize) - 38` panics; the code does not clamp the title.
- Update.CoerceDurationSpec follows the code, which does not limit the number of `:`-separated pieces. A fourth piece is weighted by `60^3` and only `u32` overflow ends the sum; the model does not reject more than three pieces, which the documented format `[[HH:]MM:]SS` would suggest.
