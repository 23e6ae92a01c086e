# Book Your Show client: cart pricing and event-creation rules

This project models, in Dafny, the pure rules inside two pages of the Book
Your Show web client.

- **The cart page** (`app/cart/page.tsx`):
  - the ticket-type catalogue built from the event's ticket types;
  - the price of a seat under an adult/child assignment;
  - the assignment map (initialisation, refresh after the seats are fetched, single-seat toggle);
  - the subtotal, which is also shown as the estimated total;
  - which seats the cart shows;
  - the guard in front of the hold request.
- **The organiser's event-creation page** (`app/organizer/events/new/page.tsx`):
  - `getApiUrl` and the request URL;
  - the ordered validation on submit;
  - ticket-type sanitising and the default price;
  - seating-category normalisation;
  - the shape of the request payload;
  - `getMinDateTime`;
  - the start-time handler that moves the end one hour past a new start.

The modules follow the source:

| module | file | contents |
|---|---|---|
| `Wrappers` | `wrappers.dfy` | `Option` and `Result` |
| `Text` | `text.dfy` | the JavaScript string operations the pages use: `trim`, `replace(/c+$/, '')`, `startsWith`/`endsWith`, ASCII `toUpperCase`, string `<` |
| `Calendar` | `calendar.dfy` | local date-times in the `YYYY-MM-DDTHH:mm` text of a `datetime-local` input, `padStart(2, '0')`, adding an hour with day/month/year rollover, and a minute ordinal that orders them |
| `ApiUrl` | `api_url.dfy` | `getApiUrl` and the events endpoint URL |
| `CartPage` | `cart_page.dfy` | the cart rules |
| `NewEventForm` | `new_event_form.dfy` | the form rules and `handleSubmit` up to the request |

How JavaScript values are represented:

- **Numbers.** Prices, commission and counts are integers. What `parseFloat`/`parseInt` make of an input is given as an `Option<int>` next to the input's text, with `None` standing for `NaN`. A number is truthy when it is present and not 0.
- **Times.** A `datetime-local` text is read by `Calendar.Parse`. A time is a count of milliseconds from the Unix epoch, 1970-01-01T00:00, on the local wall clock, as `getTime()` and `Date.now()` count (`Calendar.Millis`; `Calendar.MillisOfUnixEpoch` shows that the epoch itself is 0). `handleSubmit` takes the two `new Date(...).getTime()` values as a `Times` argument, and `NewEventForm.TimesOf` is that reading for `datetime-local` texts.
- **The clock and the environment.** The current time and the `NEXT_PUBLIC_API_URL` setting are parameters.

`getApiUrl` is not idempotent in general. With the setting `"http://a /"`, trimming happens before the trailing slashes are removed, so the first pass gives `"http://a "` and the second gives `"http://a"`. `ApiUrl.ApiUrlNotIdempotentOnInnerSpace` proves exactly that. `ApiUrl.ApiUrlIdempotent` proves idempotence for every result that does not end in whitespace.

The start-time handler compares the two `YYYY-MM-DDTHH:mm` texts as strings. That agrees with time order only when both years have the same number of digits, which is what `Calendar.FormatOrderIsTimeOrder` and the lemmas built on it require. For example, year 999 renders as `999-...`, and that sorts after `1000-...`.

## Model

| member | source | states |
|---|---|---|
| Text.Trim | app/organizer/events/new/page.tsx:14 | `trim()` never lengthens a text and leaves no whitespace at either end |
| Text.TrimStartDropsWhitespace | app/organizer/events/new/page.tsx:14 | everything removed at the front is whitespace |
| Text.TrimEndDropsWhitespace | app/organizer/events/new/page.tsx:14 | everything removed at the back is whitespace |
| Text.TrimIsSlice | app/organizer/events/new/page.tsx:14 | the trim is a contiguous slice of the text with only whitespace before and after it |
| Text.TrimOfTrimmed | app/organizer/events/new/page.tsx:14 | a text with no whitespace at either end is its own trim |
| Text.TrimIdempotent | app/organizer/events/new/page.tsx:14 | trimming twice is trimming once |
| Text.TrimEmptyIffBlank | app/organizer/events/new/page.tsx:119 | `!s.trim()` holds exactly when every character is whitespace |
| Text.TrimOfText | app/organizer/events/new/page.tsx:202-207 | a text that is not blank trims to a non-empty text with no whitespace at either end |
| Text.DropTrailing | app/organizer/events/new/page.tsx:14 | `replace(/\/+$/, '')` keeps a prefix, removes only `/` characters, and leaves no trailing `/` |
| Text.ToUpper | app/organizer/events/new/page.tsx:317 | `toUpperCase()` keeps the length and maps each character through the ASCII upper-case mapping |
| Text.ToUpperChanges | app/organizer/events/new/page.tsx:317 | `toUpperCase()` leaves no lower-case ASCII letter, changes nothing else, and keeps whitespace where it was |
| Text.UpperOfTrimmed | app/organizer/events/new/page.tsx:317 | upper-casing a trimmed text keeps it trimmed |
| Text.ToUpperIdempotent | app/organizer/events/new/page.tsx:317 | upper-casing twice is upper-casing once |
| Text.Less | app/organizer/events/new/page.tsx:622 | the string `<`: a first character below the other's decides, a shared first character defers to the rest, and the empty string is below every other |
| Text.LessIffFirstDifference | app/organizer/events/new/page.tsx:622 | `<` holds exactly when, at the first position where the strings differ, the left character is below the right one, or the left string is a proper prefix of the right |
| Text.LessIrreflexive | app/organizer/events/new/page.tsx:622 | no text is `<` itself |
| Text.LessConcat | app/organizer/events/new/page.tsx:622 | strings that start with equally long blocks compare by those blocks first, then by the rest |
| Text.LessAfterCommonPrefix | app/organizer/events/new/page.tsx:622 | a common prefix does not change a comparison |
| Calendar.NextDay | app/organizer/events/new/page.tsx:624 | the next day is a valid date whose day index is one more, at the same clock time |
| Calendar.AddHour | app/organizer/events/new/page.tsx:623-624 | `setHours(getHours() + 1)` gives a valid date-time exactly 60 minutes later, rolling over day, month and year |
| Calendar.FieldsBeforeIffEarlier | app/organizer/events/new/page.tsx:622 | comparing year, month, day, hour and minute in turn is comparing the times |
| Calendar.NatToString | app/organizer/events/new/page.tsx:51 | the year rendered in decimal: at least one character, all digits, at least two from 10 on, and a leading `0` exactly for the year 0 |
| Calendar.NatToStringRoundTrip | app/organizer/events/new/page.tsx:51-56 | the decimal rendering of the year reads back as the year |
| Calendar.NatToStringInjective | app/organizer/events/new/page.tsx:51-56 | different years render differently |
| Calendar.NatToStringOrder | app/organizer/events/new/page.tsx:622 | between numbers with equally many digits, string order is numeric order |
| Calendar.Pad2 | app/organizer/events/new/page.tsx:52-55 | `String(n).padStart(2, '0')` is all digits, and for a number below 100 it is its tens digit followed by its units digit |
| Calendar.Pad2RoundTrip | app/organizer/events/new/page.tsx:52-55 | `padStart(2, '0')` of a number below 100 reads back as the number |
| Calendar.Pad2Order | app/organizer/events/new/page.tsx:622 | padded two-digit fields compare as strings as they do as numbers |
| Calendar.Parse | app/organizer/events/new/page.tsx:135-139 | a text that reads as a date-time reads as a real calendar date and clock time |
| Calendar.TwoDigits | app/organizer/events/new/page.tsx:52-55 | any two decimal digits are the two-character padded rendering of the number they denote |
| Calendar.ParseReadsFields | app/organizer/events/new/page.tsx:135-139 | a text that reads as a date-time spells it: the digits before the last twelve characters denote the year, and those twelve are its `-MM-DDTHH:mm` |
| Calendar.ParseOfDigitsAndTail | app/organizer/events/new/page.tsx:135-139 | conversely, any non-empty run of digits denoting the year, zero-padded or not, followed by the `-MM-DDTHH:mm` of a valid date-time, reads as that date-time |
| Calendar.PaddedYearReads | app/organizer/events/new/page.tsx:135-139 | the input value `0999-05-05T10:00` reads as 10:00 on 5 May of the year 999 |
| Calendar.ParseMillis | app/organizer/events/new/page.tsx:135-139 | `getTime()` is a number exactly when the text reads as a date-time |
| Calendar.Format | app/organizer/events/new/page.tsx:56 | the `${year}-${month}-${day}T${hours}:${minutes}` text: the year's digits, then the padded fields with their separators |
| Calendar.FormatLayout | app/organizer/events/new/page.tsx:51-56 | in a rendered date-time the year's digits come first, followed by `-`, month, `-`, day, `T`, hour, `:`, minute, each field two characters |
| Calendar.Millis | app/organizer/events/new/page.tsx:135-139 | `getTime()` of a date-time: milliseconds from 1970-01-01T00:00 on the local wall clock |
| Calendar.DaysBeforeYearClosedForm | app/organizer/events/new/page.tsx:135-139 | the days before a year are 365 per year plus one per Gregorian leap year |
| Calendar.MillisOfUnixEpoch | app/organizer/events/new/page.tsx:135-139 | 1970-01-01T00:00 is millisecond 0, so `Millis` counts from the Unix epoch |
| Calendar.FormatParseRoundTrip | app/organizer/events/new/page.tsx:48-57 | a rendered `YYYY-MM-DDTHH:mm` text reads back as the same date-time |
| Calendar.RenderedHourLater | app/organizer/events/new/page.tsx:623-630 | for a start text that reads as a date-time, the rendering of that time plus one hour has `getTime()` exactly 3600000 above the start's and reads back to a time it is the canonical rendering of |
| Calendar.TailOrder | app/organizer/events/new/page.tsx:622 | the `-MM-DDTHH:mm` parts compare like month, day, hour and minute in turn |
| Calendar.FormatOrderIsTimeOrder | app/organizer/events/new/page.tsx:622 | for years with equally many digits, string `<` on rendered times is time order |
| ApiUrl.Clean | app/organizer/events/new/page.tsx:14 | the cleaned setting is the trimmed setting with its run of trailing `/` removed: no longer than the setting, with no trailing `/` |
| ApiUrl.Normalise | app/organizer/events/new/page.tsx:16-31 | a leading `:` gets `http://localhost` in front; otherwise text with a scheme is kept as it is; text without a scheme gets `http://localhost:3000` in front of a leading `/`, gets `http://` when it contains `:`, and is otherwise replaced by `http://localhost:3000/api`; every result has a scheme and no trailing `/` |
| ApiUrl.WithPrefixEndsWith | app/organizer/events/new/page.tsx:18-27 | putting a prefix in front keeps the cleaned text as the ending and a scheme prefix as the start |
| ApiUrl.GetApiUrl | app/organizer/events/new/page.tsx:8-36 | an absent or empty setting gives `http://localhost:3000/api`; every result has a scheme and no trailing `/`; otherwise it is the fallback or ends with the cleaned setting, and a cleaned setting with a scheme is returned as it is |
| ApiUrl.GetApiUrlOfSetting | app/organizer/events/new/page.tsx:12-33 | a setting that is given and not empty is cleaned and then repaired by the rules of `Normalise` |
| ApiUrl.CleanOfFinished | app/organizer/events/new/page.tsx:14 | cleaning a URL with a scheme, no trailing `/` and no trailing whitespace changes nothing |
| ApiUrl.ApiUrlIdempotent | app/organizer/events/new/page.tsx:8-36 | feeding a result that does not end in whitespace back in returns it unchanged |
| ApiUrl.ApiUrlNotIdempotentOnInnerSpace | app/organizer/events/new/page.tsx:14 | `"http://a /"` gives `"http://a "`, which gives `"http://a"` |
| ApiUrl.RequestUrl | app/organizer/events/new/page.tsx:331-333 | the request URL ends with `/organizer/events`; its base is the base URL itself when that has no trailing `/`, and the base URL minus its last character when it has one |
| ApiUrl.RequestUrlDropsOneSlash | app/organizer/events/new/page.tsx:331 | only one trailing `/` is dropped: a base ending in `//` keeps one of them |
| ApiUrl.RequestUrlOfApiUrl | app/organizer/events/new/page.tsx:331-333 | for a base URL from `getApiUrl` the request URL is the base followed by `/organizer/events` |
| CartPage.BuildCatalogue | app/cart/page.tsx:105-114 | the catalogue holds exactly the names of entries with a name and two numeric prices, each with the prices of the last such entry of that name |
| CartPage.BuildCatalogueStep | app/cart/page.tsx:108-112 | adding one entry to a catalogue of the earlier entries gives the catalogue of all of them |
| CartPage.CatalogueKeysStep | app/cart/page.tsx:109-110 | after an entry is added, the keys are the names of usable entries |
| CartPage.CatalogueValuesStep | app/cart/page.tsx:109-110 | after an entry is added, each name keeps the prices of its last usable entry |
| CartPage.CatalogueOf | app/cart/page.tsx:107 | the fetched event's ticket-type list wins, even when empty; the cached summary's is used only without it; with neither the catalogue is empty |
| CartPage.SeatPrice | app/cart/page.tsx:116-130 | no seat costs 0; a catalogue-priced seat costs the child price when assigned `child` and the adult price otherwise, unassigned included; any other seat costs its positive base price, else the event default, else the cached default, else 0 |
| CartPage.NoCataloguePriceIgnoresOccupant | app/cart/page.tsx:125-129 | without a catalogue price, a seat costs the same under any assignment |
| CartPage.FallbackPrice | app/cart/page.tsx:125-127 | `event?.defaultPrice \|\| cartData?.eventSummary?.defaultPrice \|\| 0`: the first of the two defaults that is a non-zero number, else 0 |
| CartPage.Subtotal | app/cart/page.tsx:139 | the `reduce` of the shown seats' prices from 0; `FoldIsSumOfPrices` shows it is their sum |
| CartPage.PriceList | app/cart/page.tsx:139 | the list of seat prices has one entry per seat, in order |
| CartPage.FoldIsSumOfPrices | app/cart/page.tsx:139 | the `reduce` total is the sum of the seats' prices, and 0 for no seats |
| CartPage.FoldPricesAppend | app/cart/page.tsx:139 | the total of two seat lists together is the sum of their totals |
| CartPage.FoldPricesAgree | app/cart/page.tsx:139 | pricings that agree on every seat give the same total |
| CartPage.Summarise | app/cart/page.tsx:318-332 | the summary shows the seat count; the subtotal is the sum of the seat prices and the estimated total equals it, with no fees added |
| CartPage.InitialAssignments | app/cart/page.tsx:47-57 | the cached seats' present ids, and only those, start as `adult` |
| CartPage.RefreshAssignments | app/cart/page.tsx:83-91 | the refresh adds exactly the missing present ids, as `adult`, and never changes an existing assignment |
| CartPage.RefreshIdempotent | app/cart/page.tsx:83-91 | refreshing twice with the same seats is refreshing once |
| CartPage.Toggle | app/cart/page.tsx:132-137 | `adult` becomes `child`; `child` and no assignment become `adult`; every other seat keeps its assignment |
| CartPage.ToggleTwiceRestores | app/cart/page.tsx:132-137 | toggling an assigned seat twice restores the assignment |
| CartPage.ToggleTwiceFromUnassigned | app/cart/page.tsx:132-137 | toggling an unassigned seat twice leaves it `child` |
| CartPage.TogglePriceEffect | app/cart/page.tsx:116-137 | a toggle changes only the toggled seat's price, and only when it has a catalogue price, to the other occupant's price |
| CartPage.ToggleElsewhereKeepsSubtotal | app/cart/page.tsx:132-139 | toggling an id that no shown seat has leaves the subtotal unchanged |
| CartPage.InCart | app/cart/page.tsx:76-78 | the filter keeps exactly the fetched seats whose id is in the cart, each as many times as it was fetched, and drops every other seat |
| CartPage.InCartAppend | app/cart/page.tsx:76-78 | the filter keeps the fetched order: filtering a concatenation concatenates the results |
| CartPage.InCartSingle | app/cart/page.tsx:76-78 | one fetched seat is kept exactly when its id is in the cart |
| CartPage.SelectSeats | app/cart/page.tsx:76-79 | when some fetched seat is in the cart the shown list is the filtered list (`InCart`); otherwise the cached seats, or none |
| CartPage.Proceed | app/cart/page.tsx:148-161 | no cart, or no seat ids, is refused before any request; otherwise the request carries the cart's event and seat ids and holds for 600 seconds |
| CartPage.VipChildExample | app/cart/page.tsx:116-139 | with a VIP type at 1000/700 and an event default of 500, a VIP child costs 700, a seat without a type costs 500 as adult or child, and the two total 1200 |
| NewEventForm.TimesOf | app/organizer/events/new/page.tsx:135-139 | each input's `getTime()` is a number exactly when its text reads as a date-time |
| NewEventForm.Validate | app/organizer/events/new/page.tsx:119-175 | the reported check fails, every earlier check passes, and nothing is reported exactly when no check fails |
| NewEventForm.PassedChecks | app/organizer/events/new/page.tsx:119-175 | a form that passes has a title, a venue and both dates; both read as times, the start is not in the past and the end is after it; the commission is at least 0; rows and seats per row are at least 1 for a seated event |
| NewEventForm.FormatRow | app/organizer/events/new/page.tsx:220-227 | a kept row becomes a ticket type named by the row's trimmed name, which is not empty, with the row's two parsed prices, both at least 0 |
| NewEventForm.FormatTicketTypes | app/organizer/events/new/page.tsx:199-227 | formatting never lengthens the list and yields only well-formed ticket types |
| NewEventForm.FormatTicketTypesKeepsRows | app/organizer/events/new/page.tsx:199-219 | every row with a name and two prices that are numbers at least 0 appears, formatted |
| NewEventForm.FormatTicketTypesFromRows | app/organizer/events/new/page.tsx:199-227 | every formatted entry comes from such a row |
| NewEventForm.FormatTicketTypesAppend | app/organizer/events/new/page.tsx:199-227 | formatting keeps the rows' order: formatting a concatenation concatenates the results |
| NewEventForm.Recheck | app/organizer/events/new/page.tsx:297-301 | the second filter never lengthens the list and removes nothing from well-formed ticket types |
| NewEventForm.MinAdultPrice | app/organizer/events/new/page.tsx:242 | the least adult price is at most every adult price and is one of them |
| NewEventForm.DefaultPrice | app/organizer/events/new/page.tsx:232-244 | a given starting price is used exactly when it is a number at least 0, and is an error otherwise; without one the price is the least adult price, or 0 with no ticket types; it is at least 0 |
| NewEventForm.NormalisedMeans | app/organizer/events/new/page.tsx:315-317 | a normalised category has text, no whitespace at either end and no lower-case ASCII letter |
| NewEventForm.NormaliseCategory | app/organizer/events/new/page.tsx:317 | a non-blank category becomes `ToUpper(Trim(cat))`, which is normalised |
| NewEventForm.NormaliseCategories | app/organizer/events/new/page.tsx:315-317 | blanks dropped, the rest trimmed and upper-cased: never longer than the input, every entry normalised |
| NewEventForm.AllNormalisedMeans | app/organizer/events/new/page.tsx:315-317 | a list that is normalised head first has every entry normalised |
| NewEventForm.NormaliseCategoriesSingle | app/organizer/events/new/page.tsx:315-317 | one blank category is dropped; any other is sent as `ToUpper(Trim(cat))` |
| NewEventForm.NormaliseCategoriesCons | app/organizer/events/new/page.tsx:315-317 | the normalised list is the normalised first category, if it is not blank, followed by the normalised rest |
| NewEventForm.NormaliseCategoriesAppend | app/organizer/events/new/page.tsx:315-317 | normalising keeps the order: normalising a concatenation concatenates the results |
| NewEventForm.NormaliseCategoriesEmpty | app/organizer/events/new/page.tsx:315-316 | nothing is left exactly when every category is blank |
| NewEventForm.NormaliseCategoriesFixed | app/organizer/events/new/page.tsx:315-317 | normalised categories pass through unchanged |
| NewEventForm.NormaliseCategoriesIdempotent | app/organizer/events/new/page.tsx:315-317 | normalising twice is normalising once |
| NewEventForm.Optional | app/organizer/events/new/page.tsx:265-284 | an optional text is sent exactly when it is not blank, and then trimmed |
| NewEventForm.Capacity | app/organizer/events/new/page.tsx:273-278 | the capacity is sent exactly when its input is not blank and parses as a number |
| NewEventForm.PositiveStartingPrice | app/organizer/events/new/page.tsx:287-292 | the starting price is sent exactly when its input is not blank and parses as a number above 0 |
| NewEventForm.TicketTypesField | app/organizer/events/new/page.tsx:295-305 | the ticket types are sent exactly when some survived formatting, and then all of them |
| NewEventForm.SeatingCategories | app/organizer/events/new/page.tsx:311-319 | categories are sent exactly for a seated event with a non-blank category, and then as the normalised list |
| NewEventForm.ShapePayload | app/organizer/events/new/page.tsx:246-328 | the payload carries the validated times, commission and default price; ticket types only when some survived; rows and seats only for a seated event; a poster URL only when one was uploaded |
| NewEventForm.ShapePayloadOptionalFields | app/organizer/events/new/page.tsx:264-292 | description, address, capacity and starting price are present exactly under their conditions; a sent capacity or starting price is the parsed input |
| NewEventForm.ShapePayloadTextFields | app/organizer/events/new/page.tsx:246-293 | title and venue name are trimmed; the highlighted title is sent exactly when not blank; the sent optional texts are trimmed; the poster URL is `http://localhost:3000` followed by the uploaded path |
| NewEventForm.ShapePayloadCopiedFields | app/organizer/events/new/page.tsx:321-328 | each ticket-sale date is sent exactly when it is not empty, unchanged; the sale flag, seating flag, organiser, time zone, event type and commission type are copied |
| NewEventForm.ShapePayloadSeatingCategories | app/organizer/events/new/page.tsx:311-319 | seating categories are present exactly for a seated event with a non-blank category |
| NewEventForm.Submit | app/organizer/events/new/page.tsx:119-352 | a failed check is reported before anything is built; otherwise a request is built exactly when the default price is usable, and the only other error is the bad starting price; a request goes to the events endpoint with the default price and the payload shaped from the form, with a start not in the past, an end after it, a commission and price at least 0, rows and seats of at least 1 for a seated event, and ticket types exactly when some survived |
| NewEventForm.MinDateTime | app/organizer/events/new/page.tsx:48-57 | the rendered current time reads back as the current time, and is the year's digits plus twelve characters |
| NewEventForm.EndOneHourAfter | app/organizer/events/new/page.tsx:623-630 | the new end reads as exactly one hour after the start and is the canonical `YYYY-MM-DDTHH:mm` rendering of what it reads as; a start that is not a date gives the `NaN-NaN-NaNTNaN:NaN` text |
| NewEventForm.OnStartChange | app/organizer/events/new/page.tsx:619-634 | only the start and possibly the end change; the end moves to one hour after the start exactly when it is set and not after the new start as a string |
| NewEventForm.StartChangeKeepsEndAfterStart | app/organizer/events/new/page.tsx:619-634 | for rendered times, the end moves exactly when it is not later than the new start, and afterwards it is later than the start |
| NewEventForm.StartChangePassesEndCheck | app/organizer/events/new/page.tsx:619-634 | for rendered times whose years have equally many digits, after the handler the end-after-start check on submit passes |
| NewEventForm.EndCheckPassesWhenLater | app/organizer/events/new/page.tsx:149-152 | the end-after-start check passes whenever the end reads as later than the start |

## Left out

- The network and the browser are not modelled:
  - axios requests, the health check on mount, and the poster upload; an uploaded poster's path is an input;
  - `sessionStorage`/`localStorage`, `router.push`, `alert`, `console` logging;
  - the `new URL` check before posting.
- The hold, expiry, commit and payment of a reservation run on the server. The page only builds the hold request (`Proceed`).
- Error-message extraction from failed requests (app/cart/page.tsx:176-184, app/organizer/events/new/page.tsx:357-374) is loosely typed object probing.
- Number parsing is not modelled. `parseFloat`/`parseInt` results are inputs, and prices are whole LKR with no fractions, `toFixed` or `toLocaleString`.
- Date parsing is only partly modelled. `new Date(text)` is modelled for the `datetime-local` format only (`Calendar.Parse`), and `handleSubmit` takes its readings as the `Times` argument. Time zones are left out: times are local wall-clock milliseconds, and `toISOString` is left as that number.
- The error banner texts are not modelled. Validation reports which check failed (`NewEventForm.Check`) and `handleSubmit` reports `InvalidStartingPrice`, not the strings shown.
- `Calendar.Parse`: reads a year of any number of digits. ECMAScript defines only four-digit years and signed six-digit expanded years; other years are left to the engine.
- `Calendar.Parse`: rejects the hour `24`, although ECMAScript reads `T24:00` as midnight at the end of the day.
- `toUpperCase` is modelled for ASCII letters only. Other letters are kept as they are.
- `Text.Less`: compares Unicode code points, while JavaScript's `<` compares UTF-16 code units. The two orders differ only when a character outside the Basic Multilingual Plane meets one from U+E000 to U+FFFF; the date-time texts the handler compares are ASCII.
- A seat without `_id` has the id `""`. Initialisation and refresh skip such seats (app/cart/page.tsx:50, 86), since `seat._id` is falsy. The toggle button still calls `toggleSeatTicketType(seat._id)` (app/cart/page.tsx:274). JavaScript then writes the key `"undefined"`, which all id-less seats share. `CartPage.Toggle` with the id `""` models this: the id-less seats share one key, so toggling one toggles all. The model does not tell a missing `_id` from an empty-string `_id`, or from the literal id `"undefined"`, which JavaScript keys differently.
- `ApiUrl.ApiUrlIdempotent`: requires the result not to end in whitespace, because without that condition idempotence is false (see `ApiUrl.ApiUrlNotIdempotentOnInnerSpace`).
- `NewEventForm.StartChangeKeepsEndAfterStart`: requires equally many year digits in both times, because string order and time order differ otherwise.
- `NewEventForm.StartChangePassesEndCheck`: requires equally many year digits in both times, for the same reason; with a start in year 1000 and an end in year 999, `"1000-…"` is below `"999-…"` as a string, so the handler leaves the earlier end in place and the check fails.
- `CartPage.RefreshAssignments`: the source spreads `prev` into a new object. That copy is the same map here.
- JSX rendering, styling, and the other pages of the client (event lists, registration, staff, bookings, seat editor) are not part of this model.
