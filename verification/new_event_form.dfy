/**
 * The rules of the organiser's event-creation form: the ordered validation on
 * submit, the sanitising of ticket types and seating categories, the default
 * price, the shape of the request payload, the current time rendered for the
 * start field's minimum, and the start-time handler that keeps the end after
 * the start.
 */
module NewEventForm {
  import opened Wrappers
  import opened Text
  import Calendar
  import ApiUrl

  /** A text input and what `parseFloat`/`parseInt` makes of it (`None` for `NaN`). */
  datatype Field = Field(text: string, number: Option<int>)

  /** The form state; numeric inputs that are only ever parsed are given by their parse result. */
  datatype FormData = FormData(
    organizerId: string, title: string, highlightedTitle: string, description: string,
    startAt: string, endAt: string, timezone: string,
    venueName: string, venueAddress: string, venueCapacity: Field,
    eventType: string, startingPrice: Field,
    commissionType: string, commissionValue: Option<int>,
    hasSeating: bool, numberOfRows: Option<int>, seatsPerRow: Option<int>,
    ticketSaleStartDate: string, ticketSaleEndDate: string, isTicketSaleEnabled: bool)

  /** One editable ticket-type row. */
  datatype TicketTypeRow = TicketTypeRow(name: string, adultPrice: Field, childPrice: Field)

  /** A ticket type as sent to the server. */
  datatype TicketType = TicketType(name: string, adultPrice: int, childPrice: int)

  /**
   * A text the form treats as given: `s && s.trim()` is truthy, which by
   * `Text.TrimEmptyIffBlank` is exactly a text that is not all whitespace.
   */
  predicate HasText(s: string) {
    !IsBlank(s)
  }

  // ---------------------------------------------------------------- validation

  /** The checks run on submit, in the order they run. */
  datatype Check =
    | TitleMissing | VenueMissing | DatesMissing | InvalidDate | StartInPast
    | EndNotAfterStart | InvalidCommission | InvalidRowCount | InvalidSeatsPerRow

  function Rank(c: Check): nat {
    match c
    case TitleMissing => 1
    case VenueMissing => 2
    case DatesMissing => 3
    case InvalidDate => 4
    case StartInPast => 5
    case EndNotAfterStart => 6
    case InvalidCommission => 7
    case InvalidRowCount => 8
    case InvalidSeatsPerRow => 9
  }

  /** What `new Date(...).getTime()` gives for the start and end inputs; `None` for an invalid date. */
  datatype Times = Times(start: Option<int>, end: Option<int>)

  /** The times of the two inputs under the `datetime-local` reading of `Calendar.ParseMillis`. */
  function TimesOf(f: FormData): (t: Times)
    ensures t.start.Some? <==> Calendar.Parse(f.startAt).Some?
    ensures t.end.Some? <==> Calendar.Parse(f.endAt).Some?
  {
    Times(Calendar.ParseMillis(f.startAt), Calendar.ParseMillis(f.endAt))
  }

  /**
   * Whether check `c`, taken on its own, objects to the form whose inputs
   * read as `t`, at time `now` (milliseconds).
   */
  predicate Fails(f: FormData, t: Times, now: int, c: Check) {
    var start := t.start;
    var end := t.end;
    match c
    case TitleMissing => IsBlank(f.title)
    case VenueMissing => IsBlank(f.venueName)
    case DatesMissing => f.startAt == "" || f.endAt == ""
    case InvalidDate => start.None? || end.None?
    case StartInPast => start.Some? && start.value < now
    case EndNotAfterStart => start.Some? && end.Some? && end.value <= start.value
    case InvalidCommission => f.commissionValue.None? || f.commissionValue.value < 0
    case InvalidRowCount => f.hasSeating && (f.numberOfRows.None? || f.numberOfRows.value < 1)
    case InvalidSeatsPerRow => f.hasSeating && (f.seatsPerRow.None? || f.seatsPerRow.value < 1)
  }

  /**
   * The validation on submit: it reports the first failing check in `Rank`
   * order, and reports nothing exactly when no check fails.
   */
  function Validate(f: FormData, t: Times, now: int): (r: Option<Check>)
    ensures r.Some? ==> Fails(f, t, now, r.value)
    ensures r.Some? ==> forall c :: Rank(c) < Rank(r.value) ==> !Fails(f, t, now, c)
    ensures r.None? <==> forall c :: !Fails(f, t, now, c)
  {
    var start := t.start;
    var end := t.end;
    var r :=
    if IsBlank(f.title) then Some(TitleMissing)
    else if IsBlank(f.venueName) then Some(VenueMissing)
    else if f.startAt == "" || f.endAt == "" then Some(DatesMissing)
    else if start.None? || end.None? then Some(InvalidDate)
    else if start.value < now then Some(StartInPast)
    else if end.value <= start.value then Some(EndNotAfterStart)
    else if f.commissionValue.None? || f.commissionValue.value < 0 then Some(InvalidCommission)
    else if f.hasSeating && (f.numberOfRows.None? || f.numberOfRows.value < 1) then Some(InvalidRowCount)
    else if f.hasSeating && (f.seatsPerRow.None? || f.seatsPerRow.value < 1) then Some(InvalidSeatsPerRow)
    else None;
    assert r.Some? ==> Fails(f, t, now, r.value);
    r
  }

  /** What a form that passes validation guarantees about its fields and times. */
  lemma PassedChecks(f: FormData, t: Times, now: int)
    requires Validate(f, t, now).None?
    ensures HasText(f.title) && HasText(f.venueName) && f.startAt != "" && f.endAt != ""
    ensures t.start.Some? && t.end.Some? && now <= t.start.value < t.end.value
    ensures f.commissionValue.Some? && f.commissionValue.value >= 0
    ensures f.hasSeating ==> f.numberOfRows.Some? && f.numberOfRows.value >= 1
    ensures f.hasSeating ==> f.seatsPerRow.Some? && f.seatsPerRow.value >= 1
  {
    assert !Fails(f, t, now, TitleMissing) && !Fails(f, t, now, VenueMissing) && !Fails(f, t, now, DatesMissing);
    assert !Fails(f, t, now, InvalidDate) && !Fails(f, t, now, StartInPast) && !Fails(f, t, now, EndNotAfterStart);
    assert !Fails(f, t, now, InvalidCommission) && !Fails(f, t, now, InvalidRowCount);
    assert !Fails(f, t, now, InvalidSeatsPerRow);
  }

  // ---------------------------------------------------------------- ticket types

  /** A row survives formatting: a name and two price texts that are not blank, both prices numbers at least 0. */
  predicate KeepRow(row: TicketTypeRow) {
    && HasText(row.name)
    && HasText(row.adultPrice.text) && HasText(row.childPrice.text)
    && row.adultPrice.number.Some? && row.adultPrice.number.value >= 0
    && row.childPrice.number.Some? && row.childPrice.number.value >= 0
  }

  function FormatRow(row: TicketTypeRow): (t: TicketType)
    requires KeepRow(row)
    ensures WellFormed(t)
    ensures t.name == Trim(row.name)
    ensures t.adultPrice == row.adultPrice.number.value && t.childPrice == row.childPrice.number.value
  {
    TrimOfText(row.name);
    TicketType(Trim(row.name), row.adultPrice.number.value, row.childPrice.number.value)
  }

  /** What the server is sent: a trimmed, non-empty name and prices at least 0. */
  predicate WellFormed(t: TicketType) {
    t.name != "" && IsTrimmed(t.name) && t.adultPrice >= 0 && t.childPrice >= 0
  }

  /** The filtered and trimmed ticket types: never more than the rows, each well formed. */
  function FormatTicketTypes(rows: seq<TicketTypeRow>): (r: seq<TicketType>)
    ensures |r| <= |rows|
    ensures forall t :: t in r ==> WellFormed(t)
    decreases |rows|
  {
    if |rows| == 0 then []
    else
      var rest := FormatTicketTypes(rows[1..]);
      if KeepRow(rows[0]) then [FormatRow(rows[0])] + rest
      else rest
  }

  /** Every kept row is represented in the formatted list. */
  lemma {:induction false} FormatTicketTypesKeepsRows(rows: seq<TicketTypeRow>)
    ensures forall k :: 0 <= k < |rows| && KeepRow(rows[k]) ==> FormatRow(rows[k]) in FormatTicketTypes(rows)
    decreases |rows|
  {
    if |rows| > 0 {
      var tail := rows[1..];
      FormatTicketTypesKeepsRows(tail);
      var rest := FormatTicketTypes(tail);
      assert FormatTicketTypes(rows) == (if KeepRow(rows[0]) then [FormatRow(rows[0])] + rest else rest);
      forall k | 0 < k < |rows| && KeepRow(rows[k]) ensures FormatRow(rows[k]) in rest {
        assert rows[k] == tail[k - 1];
      }
    }
  }

  /** Every formatted entry comes from a kept row. */
  lemma {:induction false} FormatTicketTypesFromRows(rows: seq<TicketTypeRow>)
    ensures forall t :: t in FormatTicketTypes(rows) ==>
              exists k :: 0 <= k < |rows| && KeepRow(rows[k]) && FormatRow(rows[k]) == t
    decreases |rows|
  {
    if |rows| > 0 {
      var tail := rows[1..];
      FormatTicketTypesFromRows(tail);
      var r := FormatTicketTypes(rows);
      var rest := FormatTicketTypes(tail);
      assert r == (if KeepRow(rows[0]) then [FormatRow(rows[0])] + rest else rest);
      forall t | t in r ensures exists k :: 0 <= k < |rows| && KeepRow(rows[k]) && FormatRow(rows[k]) == t {
        if t in rest {
          FromRowOfTail(rows, t);
        } else {
          assert KeepRow(rows[0]) && t == FormatRow(rows[0]);
        }
      }
    }
  }

  /** An entry formatted from a row of the tail is formatted from a row of the whole list. */
  lemma FromRowOfTail(rows: seq<TicketTypeRow>, t: TicketType)
    requires |rows| > 0
    requires exists j :: 0 <= j < |rows[1..]| && KeepRow(rows[1..][j]) && FormatRow(rows[1..][j]) == t
    ensures exists k :: 0 <= k < |rows| && KeepRow(rows[k]) && FormatRow(rows[k]) == t
  {
    var j :| 0 <= j < |rows[1..]| && KeepRow(rows[1..][j]) && FormatRow(rows[1..][j]) == t;
    assert rows[j + 1] == rows[1..][j];
  }

  /** Formatting keeps the rows' order: formatting a concatenation concatenates the results. */
  lemma {:induction false} FormatTicketTypesAppend(a: seq<TicketTypeRow>, b: seq<TicketTypeRow>)
    ensures FormatTicketTypes(a + b) == FormatTicketTypes(a) + FormatTicketTypes(b)
    decreases |a|
  {
    if |a| == 0 {
      assert a + b == b;
    } else {
      assert (a + b)[0] == a[0];
      assert (a + b)[1..] == a[1..] + b;
      FormatTicketTypesAppend(a[1..], b);
    }
  }

  /** The second filter applied before the payload: name present, prices at least 0. */
  function Recheck(ts: seq<TicketType>): (r: seq<TicketType>)
    ensures |r| <= |ts|
    ensures (forall t :: t in ts ==> WellFormed(t)) ==> r == ts
  {
    if |ts| == 0 then []
    else
      var t := ts[0];
      var rest := Recheck(ts[1..]);
      assert (forall u :: u in ts ==> WellFormed(u)) ==> rest == ts[1..] && WellFormed(t) by {
        assert forall u :: u in ts[1..] ==> u in ts;
      }
      assert ts == [t] + ts[1..];
      if t.name != "" && t.adultPrice >= 0 && t.childPrice >= 0 then [t] + rest else rest
  }

  // ---------------------------------------------------------------- default price

  /** The least adult price. */
  function MinAdultPrice(ts: seq<TicketType>): (m: int)
    requires |ts| > 0
    ensures forall t :: t in ts ==> m <= t.adultPrice
    ensures exists t :: t in ts && t.adultPrice == m
  {
    if |ts| == 1 then ts[0].adultPrice
    else
      var rest := MinAdultPrice(ts[1..]);
      assert forall t :: t in ts[1..] ==> t in ts;
      assert forall t :: t in ts ==> t == ts[0] || t in ts[1..];
      if ts[0].adultPrice <= rest then ts[0].adultPrice else rest
  }

  datatype SubmitError = Invalid(check: Check) | InvalidStartingPrice

  /**
   * The default price: a given starting price when it is a number at least 0
   * (an error otherwise); without one, the least adult price among the
   * formatted ticket types, or 0 when there are none.
   */
  function DefaultPrice(startingPrice: Field, formatted: seq<TicketType>): (r: Result<int, SubmitError>)
    ensures HasText(startingPrice.text) ==>
              (r.Ok? <==> startingPrice.number.Some? && startingPrice.number.value >= 0)
    ensures HasText(startingPrice.text) && r.Ok? ==> r.value == startingPrice.number.value
    ensures r.Err? ==> r.error == InvalidStartingPrice
    ensures !HasText(startingPrice.text) ==> r.Ok? && forall t :: t in formatted ==> r.value <= t.adultPrice
    ensures !HasText(startingPrice.text) && formatted == [] ==> r == Ok(0)
    ensures !HasText(startingPrice.text) && formatted != [] ==> exists t :: t in formatted && t.adultPrice == r.value
    ensures (forall t :: t in formatted ==> WellFormed(t)) && r.Ok? ==> r.value >= 0
  {
    if HasText(startingPrice.text) then
      match startingPrice.number
      case None => Err(InvalidStartingPrice)
      case Some(v) => if v < 0 then Err(InvalidStartingPrice) else Ok(v)
    else if |formatted| > 0 then Ok(MinAdultPrice(formatted))
    else Ok(0)
  }

  // ---------------------------------------------------------------- seating categories

  /** A category as sent: not empty, and left alone by both `trim` and `toUpperCase`. */
  predicate Normalised(c: string) {
    c != "" && Trim(c) == c && ToUpper(c) == c
  }

  /** A normalised category has text, no whitespace at either end and no lower-case ASCII letter. */
  lemma NormalisedMeans(c: string)
    requires Normalised(c)
    ensures HasText(c) && IsTrimmed(c)
    ensures forall k :: 0 <= k < |c| ==> !IsLowerAscii(c[k])
  {
    ToUpperChanges(c);
    assert !IsWhitespace(c[0]);
  }

  /** One category that is not blank, trimmed and upper-cased. */
  function NormaliseCategory(c: string): (u: string)
    requires HasText(c)
    ensures u == ToUpper(Trim(c))
    ensures Normalised(u)
  {
    TrimOfText(c);
    var t := Trim(c);
    UpperOfTrimmed(t);
    ToUpperIdempotent(t);
    ToUpper(t)
  }

  /** Blank categories dropped, the rest trimmed and upper-cased. */
  function NormaliseCategories(cats: seq<string>): (r: seq<string>)
    ensures |r| <= |cats|
    ensures AllNormalised(r)
    decreases |cats|
  {
    if |cats| == 0 then []
    else
      var rest := NormaliseCategories(cats[1..]);
      if HasText(cats[0]) then
        var u := NormaliseCategory(cats[0]);
        AllNormalisedCons(u, rest);
        [u] + rest
      else rest
  }

  /** Every category of the list is normalised, stated head first. */
  predicate AllNormalised(cats: seq<string>)
    decreases |cats|
  {
    |cats| == 0 || (Normalised(cats[0]) && AllNormalised(cats[1..]))
  }

  lemma AllNormalisedCons(u: string, rest: seq<string>)
    requires Normalised(u) && AllNormalised(rest)
    ensures AllNormalised([u] + rest)
  {
    assert ([u] + rest)[1..] == rest;
  }

  /** `AllNormalised` says that each entry, by index, is normalised. */
  lemma {:induction false} AllNormalisedMeans(cats: seq<string>)
    requires AllNormalised(cats)
    ensures forall i :: 0 <= i < |cats| ==> Normalised(cats[i])
    decreases |cats|
  {
    if |cats| > 0 {
      AllNormalisedMeans(cats[1..]);
      assert forall i :: 0 < i < |cats| ==> cats[i] == cats[1..][i - 1];
    }
  }

  /** Nothing is left exactly when every category is blank. */
  lemma {:induction false} NormaliseCategoriesEmpty(cats: seq<string>)
    ensures NormaliseCategories(cats) == [] <==> forall i :: 0 <= i < |cats| ==> !HasText(cats[i])
    decreases |cats|
  {
    if |cats| > 0 {
      NormaliseCategoriesEmpty(cats[1..]);
      assert forall i :: 0 < i < |cats| ==> cats[i] == cats[1..][i - 1];
    }
  }

  /** One category: a blank one is dropped, any other is sent trimmed and upper-cased. */
  lemma NormaliseCategoriesSingle(c: string)
    ensures HasText(c) ==> NormaliseCategories([c]) == [ToUpper(Trim(c))]
    ensures !HasText(c) ==> NormaliseCategories([c]) == []
  {
    assert [c][1..] == [];
  }

  /** Normalising keeps the categories' order: normalising a concatenation concatenates the results. */
  lemma {:induction false} NormaliseCategoriesAppend(a: seq<string>, b: seq<string>)
    ensures NormaliseCategories(a + b) == NormaliseCategories(a) + NormaliseCategories(b)
    decreases |a|
  {
    if |a| == 0 {
      assert a + b == b;
    } else {
      var ab := a + b;
      assert ab[0] == a[0] && ab[1..] == a[1..] + b;
      NormaliseCategoriesCons(ab);
      NormaliseCategoriesCons(a);
      NormaliseCategoriesAppend(a[1..], b);
      var h := if HasText(a[0]) then [NormaliseCategory(a[0])] else [];
      JoinSteps(NormaliseCategories(ab), NormaliseCategories(a), NormaliseCategories(b),
                NormaliseCategories(a[1..] + b), NormaliseCategories(a[1..]), h);
    }
  }

  /** The list algebra of one induction step: a shared head `h` in front of an appended tail. */
  lemma JoinSteps<T>(whole: seq<T>, left: seq<T>, right: seq<T>, tail: seq<T>, leftTail: seq<T>, h: seq<T>)
    requires whole == h + tail && tail == leftTail + right && left == h + leftTail
    ensures whole == left + right
  {
  }

  /** The normalised list is the normalised head (if any) followed by the normalised rest. */
  lemma NormaliseCategoriesCons(cats: seq<string>)
    requires |cats| > 0
    ensures NormaliseCategories(cats)
            == (if HasText(cats[0]) then [NormaliseCategory(cats[0])] else []) + NormaliseCategories(cats[1..])
  {
    if !HasText(cats[0]) {
      EmptyPrefix(NormaliseCategories(cats[1..]));
    }
  }

  lemma EmptyPrefix<T>(s: seq<T>)
    ensures [] + s == s
  {
  }

  /** A list of categories that are all normalised already is left as it is. */
  lemma {:induction false} NormaliseCategoriesFixed(cats: seq<string>)
    requires AllNormalised(cats)
    ensures NormaliseCategories(cats) == cats
    decreases |cats|
  {
    if |cats| > 0 {
      var c := cats[0];
      NormaliseCategoriesFixed(cats[1..]);
      NormalisedMeans(c);
      assert NormaliseCategory(c) == c;
      assert cats == [c] + cats[1..];
    }
  }

  /** Normalising normalised categories changes nothing. */
  lemma NormaliseCategoriesIdempotent(cats: seq<string>)
    ensures NormaliseCategories(NormaliseCategories(cats)) == NormaliseCategories(cats)
  {
    NormaliseCategoriesFixed(NormaliseCategories(cats));
  }


  // ---------------------------------------------------------------- payload

  datatype Venue = Venue(name: string, address: Option<string>, capacity: Option<int>)

  datatype Commission = Commission(kind: string, value: int)

  /** The request body; `startAt`/`endAt` are the millisecond times of the two inputs. */
  datatype EventPayload = EventPayload(
    organizerId: string, title: string, startAt: int, endAt: int, timezone: string,
    venue: Venue, eventType: string, defaultPrice: int, commission: Commission, hasSeating: bool,
    description: Option<string>, highlightedTitle: Option<string>, startingPrice: Option<int>,
    ticketTypes: Option<seq<TicketType>>, posterImageUrl: Option<string>,
    numberOfRows: Option<int>, seatsPerRow: Option<int>, seatingCategories: Option<seq<string>>,
    ticketSaleStartDate: Option<string>, ticketSaleEndDate: Option<string>, isTicketSaleEnabled: bool)

  /** The trimmed text when it is not blank. */
  function Optional(s: string): (r: Option<string>)
    ensures r.Some? <==> HasText(s)
    ensures r.Some? ==> r.value == Trim(s) && r.value != "" && IsTrimmed(r.value)
  {
    if HasText(s) then TrimOfText(s); Some(Trim(s)) else None
  }

  /** The venue capacity, sent when its input is not blank and parses as a number. */
  function Capacity(capacity: Field): (r: Option<int>)
    ensures r.Some? <==> HasText(capacity.text) && capacity.number.Some?
    ensures r.Some? ==> r == capacity.number
  {
    if HasText(capacity.text) && capacity.number.Some? then capacity.number else None
  }

  /** The starting price, sent when its input is not blank and parses as a number above 0. */
  function PositiveStartingPrice(startingPrice: Field): (r: Option<int>)
    ensures r.Some? <==> HasText(startingPrice.text) && startingPrice.number.Some? && startingPrice.number.value > 0
    ensures r.Some? ==> r == startingPrice.number
  {
    if HasText(startingPrice.text) && startingPrice.number.Some? && startingPrice.number.value > 0
    then startingPrice.number else None
  }

  /**
   * The ticket types, sent when any survived formatting; the second filter
   * run on them before sending never removes one.
   */
  function TicketTypesField(formatted: seq<TicketType>): (r: Option<seq<TicketType>>)
    requires forall t :: t in formatted ==> WellFormed(t)
    ensures r.Some? <==> formatted != []
    ensures r.Some? ==> r.value == formatted
  {
    if |formatted| > 0 then
      var valid := Recheck(formatted);
      if |valid| > 0 then Some(valid) else None
    else None
  }

  /** The seating categories, sent for a seated event when a category that is not blank is left. */
  function SeatingCategories(hasSeating: bool, categories: seq<string>): (r: Option<seq<string>>)
    ensures r.Some? <==> hasSeating && exists i :: 0 <= i < |categories| && HasText(categories[i])
    ensures r.Some? ==> r.value == NormaliseCategories(categories) && r.value != []
  {
    NormaliseCategoriesEmpty(categories);
    var normalised := NormaliseCategories(categories);
    if hasSeating && |normalised| > 0 then Some(normalised) else None
  }

  /**
   * The payload built from a validated form: optional texts only when not
   * blank, the starting price only when above 0, the ticket types only when
   * some survived, and the seating fields only for a seated event, with the
   * categories only when a non-blank one is left.
   */
  function ShapePayload(f: FormData, start: int, end: int, commission: int, defaultPrice: int,
                        formatted: seq<TicketType>, categories: seq<string>, poster: Option<string>): (p: EventPayload)
    requires forall t :: t in formatted ==> WellFormed(t)
    ensures p.startAt == start && p.endAt == end && p.defaultPrice == defaultPrice
    ensures p.commission.value == commission
    ensures p.ticketTypes.Some? <==> formatted != []
    ensures p.ticketTypes.Some? ==> p.ticketTypes.value == formatted
    ensures !f.hasSeating ==> p.numberOfRows.None? && p.seatsPerRow.None?
    ensures f.hasSeating ==> p.numberOfRows == f.numberOfRows && p.seatsPerRow == f.seatsPerRow
    ensures p.posterImageUrl.Some? <==> poster.Some?
  {
    EventPayload(
      organizerId := f.organizerId,
      title := Trim(f.title),
      startAt := start,
      endAt := end,
      timezone := f.timezone,
      venue := Venue(Trim(f.venueName), Optional(f.venueAddress), Capacity(f.venueCapacity)),
      eventType := f.eventType,
      defaultPrice := defaultPrice,
      commission := Commission(f.commissionType, commission),
      hasSeating := f.hasSeating,
      description := Optional(f.description),
      highlightedTitle := Optional(f.highlightedTitle),
      startingPrice := PositiveStartingPrice(f.startingPrice),
      ticketTypes := TicketTypesField(formatted),
      posterImageUrl := if poster.Some? then Some("http://localhost:3000" + poster.value) else None,
      numberOfRows := if f.hasSeating then f.numberOfRows else None,
      seatsPerRow := if f.hasSeating then f.seatsPerRow else None,
      seatingCategories := SeatingCategories(f.hasSeating, categories),
      ticketSaleStartDate := if f.ticketSaleStartDate != "" then Some(f.ticketSaleStartDate) else None,
      ticketSaleEndDate := if f.ticketSaleEndDate != "" then Some(f.ticketSaleEndDate) else None,
      isTicketSaleEnabled := f.isTicketSaleEnabled)
  }

  /** The optional texts and numbers of the payload are present exactly when the form gives them. */
  lemma ShapePayloadOptionalFields(f: FormData, start: int, end: int, commission: int, defaultPrice: int,
                                   formatted: seq<TicketType>, categories: seq<string>, poster: Option<string>)
    requires forall t :: t in formatted ==> WellFormed(t)
    ensures var p := ShapePayload(f, start, end, commission, defaultPrice, formatted, categories, poster);
      && (p.description.Some? <==> HasText(f.description))
      && (p.venue.address.Some? <==> HasText(f.venueAddress))
      && (p.venue.capacity.Some? <==> HasText(f.venueCapacity.text) && f.venueCapacity.number.Some?)
      && (p.startingPrice.Some? <==>
            HasText(f.startingPrice.text) && f.startingPrice.number.Some? && f.startingPrice.number.value > 0)
      && (p.venue.capacity.Some? ==> p.venue.capacity == f.venueCapacity.number)
      && (p.startingPrice.Some? ==> p.startingPrice == f.startingPrice.number)
  {
  }

  /** The payload carries seating categories exactly for a seated event with a category that is not blank. */
  lemma ShapePayloadSeatingCategories(f: FormData, start: int, end: int, commission: int, defaultPrice: int,
                                      formatted: seq<TicketType>, categories: seq<string>, poster: Option<string>)
    requires forall t :: t in formatted ==> WellFormed(t)
    ensures var p := ShapePayload(f, start, end, commission, defaultPrice, formatted, categories, poster);
      && (p.seatingCategories.Some? <==> f.hasSeating && exists i :: 0 <= i < |categories| && HasText(categories[i]))
      && (p.seatingCategories.Some? ==> p.seatingCategories.value == NormaliseCategories(categories))
  {
  }

  /**
   * The texts of the payload: title and venue name trimmed, the optional texts
   * trimmed when sent, the poster behind the upload host, the ticket-sale
   * dates passed on exactly when not empty, and the remaining inputs as given.
   */
  lemma ShapePayloadTextFields(f: FormData, start: int, end: int, commission: int, defaultPrice: int,
                               formatted: seq<TicketType>, categories: seq<string>, poster: Option<string>)
    requires forall t :: t in formatted ==> WellFormed(t)
    ensures var p := ShapePayload(f, start, end, commission, defaultPrice, formatted, categories, poster);
      && p.title == Trim(f.title) && p.venue.name == Trim(f.venueName)
      && (p.highlightedTitle.Some? <==> HasText(f.highlightedTitle))
      && (p.highlightedTitle.Some? ==> p.highlightedTitle.value == Trim(f.highlightedTitle))
      && (p.description.Some? ==> p.description.value == Trim(f.description))
      && (p.venue.address.Some? ==> p.venue.address.value == Trim(f.venueAddress))
      && (p.posterImageUrl.Some? ==> p.posterImageUrl.value == "http://localhost:3000" + poster.value)
  {
  }

  /** The ticket-sale fields and the inputs the payload copies unchanged. */
  lemma ShapePayloadCopiedFields(f: FormData, start: int, end: int, commission: int, defaultPrice: int,
                                 formatted: seq<TicketType>, categories: seq<string>, poster: Option<string>)
    requires forall t :: t in formatted ==> WellFormed(t)
    ensures var p := ShapePayload(f, start, end, commission, defaultPrice, formatted, categories, poster);
      && (p.ticketSaleStartDate.Some? <==> f.ticketSaleStartDate != "")
      && (p.ticketSaleStartDate.Some? ==> p.ticketSaleStartDate.value == f.ticketSaleStartDate)
      && (p.ticketSaleEndDate.Some? <==> f.ticketSaleEndDate != "")
      && (p.ticketSaleEndDate.Some? ==> p.ticketSaleEndDate.value == f.ticketSaleEndDate)
      && p.isTicketSaleEnabled == f.isTicketSaleEnabled && p.hasSeating == f.hasSeating
      && p.organizerId == f.organizerId && p.timezone == f.timezone && p.eventType == f.eventType
      && p.commission.kind == f.commissionType
  {
  }

  // ---------------------------------------------------------------- submit

  datatype Submission = Submission(url: string, payload: EventPayload)

  /**
   * `handleSubmit` up to the request, for a form whose inputs read as
   * `times`: a failed check stops it with that check before anything is
   * built; an unusable starting price stops it next; otherwise the payload
   * carries the validated facts and goes to the events endpoint of the base
   * URL.
   */
  function Submit(f: FormData, times: Times, rows: seq<TicketTypeRow>, categories: seq<string>,
                  poster: Option<string>, now: int, apiUrl: string): (r: Result<Submission, SubmitError>)
    ensures Validate(f, times, now).Some? ==> r == Err(Invalid(Validate(f, times, now).value))
    ensures r == Err(InvalidStartingPrice) ==>
              Validate(f, times, now).None? && HasText(f.startingPrice.text)
              && (f.startingPrice.number.None? || f.startingPrice.number.value < 0)
    ensures r.Ok? ==> Validate(f, times, now).None? && r.value.url == ApiUrl.RequestUrl(apiUrl)
    ensures r.Ok? ==> times == Times(Some(r.value.payload.startAt), Some(r.value.payload.endAt))
    ensures r.Ok? ==> now <= r.value.payload.startAt < r.value.payload.endAt
    ensures r.Ok? ==> r.value.payload.commission.value >= 0 && r.value.payload.defaultPrice >= 0
    ensures r.Ok? && f.hasSeating ==>
              var p := r.value.payload;
              p.numberOfRows.Some? && p.numberOfRows.value >= 1 && p.seatsPerRow.Some? && p.seatsPerRow.value >= 1
    ensures r.Ok? ==> (r.value.payload.ticketTypes.Some? <==> FormatTicketTypes(rows) != [])
    ensures r.Ok? <==> Validate(f, times, now).None? && DefaultPrice(f.startingPrice, FormatTicketTypes(rows)).Ok?
    ensures r.Err? && Validate(f, times, now).None? ==> r == Err(InvalidStartingPrice)
    ensures r.Ok? ==> r.value.payload.defaultPrice == DefaultPrice(f.startingPrice, FormatTicketTypes(rows)).value
    ensures r.Ok? ==> r.value.payload == ShapePayload(f, r.value.payload.startAt, r.value.payload.endAt,
                                                      f.commissionValue.value, r.value.payload.defaultPrice,
                                                      FormatTicketTypes(rows), categories, poster)
  {
    match Validate(f, times, now)
    case Some(c) => Err(Invalid(c))
    case None =>
      PassedChecks(f, times, now);
      var formatted := FormatTicketTypes(rows);
      match DefaultPrice(f.startingPrice, formatted)
      case Err(e) => Err(e)
      case Ok(price) =>
        var payload := ShapePayload(f, times.start.value, times.end.value, f.commissionValue.value,
                                    price, formatted, categories, poster);
        Ok(Submission(ApiUrl.RequestUrl(apiUrl), payload))
  }

  // ---------------------------------------------------------------- date-time fields

  /** `getMinDateTime`: the clock rendered as `YYYY-MM-DDTHH:mm`, which reads back as the same time. */
  function MinDateTime(clock: Calendar.DateTime): (s: string)
    requires Calendar.Valid(clock)
    ensures Calendar.Parse(s) == Some(clock)
    ensures |s| == |Calendar.NatToString(clock.year)| + 12
  {
    Calendar.FormatParseRoundTrip(clock);
    Calendar.FormatLayout(clock);
    Calendar.Format(clock)
  }

  /** The end text the handler writes: one hour after the start, or the `NaN` rendering when the start is not a date. */
  function EndOneHourAfter(start: string): (r: string)
    ensures Calendar.Parse(start).None? ==> r == Calendar.InvalidDateText
    ensures Calendar.Parse(start).Some? ==>
              Calendar.ParseMillis(r) == Some(Calendar.ParseMillis(start).value + 3600000)
    ensures Calendar.Parse(start).Some? ==> Calendar.Parse(r).Some? && r == Calendar.Format(Calendar.Parse(r).value)
  {
    match Calendar.Parse(start)
    case None => Calendar.InvalidDateText
    case Some(d) =>
      Calendar.RenderedHourLater(start, d);
      Calendar.Format(Calendar.AddHour(d))
  }

  /** The handler moves the end: an end is set and the new start is not below it as a string. */
  predicate EndNeedsMoving(f: FormData, newStart: string) {
    f.endAt != "" && !Less(newStart, f.endAt)
  }

  /**
   * The start field's change handler: the start takes the new text; the end
   * moves to one hour after it when `EndNeedsMoving`, and nothing else changes.
   */
  function OnStartChange(f: FormData, newStart: string): (r: FormData)
    ensures r == f.(startAt := newStart, endAt := r.endAt)
    ensures EndNeedsMoving(f, newStart) ==> r.endAt == EndOneHourAfter(newStart)
    ensures !EndNeedsMoving(f, newStart) ==> r.endAt == f.endAt
  {
    if f.endAt != "" && !Less(newStart, f.endAt) then
      f.(startAt := newStart, endAt := EndOneHourAfter(newStart))
    else f.(startAt := newStart)
  }

  /**
   * For two rendered times whose years have equally many digits, the handler
   * moves the end exactly when the end is not after the new start, and
   * afterwards the end-after-start check passes: the end is either the old,
   * later end or exactly one hour after the start.
   */
  lemma StartChangeKeepsEndAfterStart(f: FormData, a: Calendar.DateTime, b: Calendar.DateTime)
    requires Calendar.Valid(a) && Calendar.Valid(b)
    requires f.endAt == Calendar.Format(b)
    requires |Calendar.NatToString(a.year)| == |Calendar.NatToString(b.year)|
    ensures EndNeedsMoving(f, Calendar.Format(a)) <==> Calendar.Millis(b) <= Calendar.Millis(a)
    ensures var r := OnStartChange(f, Calendar.Format(a));
      && Calendar.ParseMillis(r.startAt) == Some(Calendar.Millis(a))
      && Calendar.ParseMillis(r.endAt).Some?
      && Calendar.ParseMillis(r.endAt).value > Calendar.Millis(a)
  {
    var s := Calendar.Format(a);
    Calendar.FormatParseRoundTrip(a);
    Calendar.FormatParseRoundTrip(b);
    assert Calendar.ParseMillis(s) == Some(Calendar.Millis(a));
    assert Calendar.ParseMillis(f.endAt) == Some(Calendar.Millis(b));
    Calendar.FormatOrderIsTimeOrder(a, b);
    assert f.endAt != "" by {
      assert Calendar.Parse(f.endAt).Some?;
    }
    var r := OnStartChange(f, s);
    if EndNeedsMoving(f, s) {
      assert r.endAt == EndOneHourAfter(s);
    } else {
      assert r.endAt == f.endAt;
    }
  }

  /** After the handler, the end-after-start check on submit passes. */
  lemma StartChangePassesEndCheck(f: FormData, a: Calendar.DateTime, b: Calendar.DateTime, now: int)
    requires Calendar.Valid(a) && Calendar.Valid(b)
    requires f.endAt == Calendar.Format(b)
    requires |Calendar.NatToString(a.year)| == |Calendar.NatToString(b.year)|
    ensures var r := OnStartChange(f, Calendar.Format(a)); !Fails(r, TimesOf(r), now, EndNotAfterStart)
  {
    StartChangeKeepsEndAfterStart(f, a, b);
    var r := OnStartChange(f, Calendar.Format(a));
    EndCheckPassesWhenLater(r, TimesOf(r), now);
  }

  /** The end-after-start check passes on any form whose end reads as later than its start. */
  lemma EndCheckPassesWhenLater(g: FormData, t: Times, now: int)
    requires t.start.Some? && t.end.Some? && t.start.value < t.end.value
    ensures !Fails(g, t, now, EndNotAfterStart)
  {
  }
}
