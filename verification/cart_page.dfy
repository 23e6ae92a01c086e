/**
 * The pricing rules of the cart page: the ticket-type catalogue, the per-seat
 * price under an adult/child assignment, the assignment map and its updates,
 * the subtotal shown as the estimated total, which seats the cart shows, and
 * the guard in front of the hold request.
 */
module CartPage {
  import opened Wrappers

  datatype Occupant = Adult | Child

  /**
   * A seat record from the seats endpoint or from the cached cart. The empty
   * string stands for a missing `_id` or `ticketType`; a `basePrice` that is
   * absent or not a number is `None`.
   */
  datatype Seat = Seat(id: string, ticketType: string, basePrice: Option<int>)

  /** One entry of an event's `ticketTypes`; a price that is not a number is `None`. */
  datatype TicketTypeEntry = TicketTypeEntry(name: string, adultPrice: Option<int>, childPrice: Option<int>)

  datatype PricePair = PricePair(adultPrice: int, childPrice: int)

  /** The pricing part of an event: the fetched event, or the summary cached with the cart. */
  datatype EventPricing = EventPricing(ticketTypes: Option<seq<TicketTypeEntry>>, defaultPrice: Option<int>)

  /** What the event page stored for the cart. */
  datatype CartPayload = CartPayload(eventId: string, seatIds: seq<string>, seats: Option<seq<Seat>>,
                                     summary: Option<EventPricing>)

  type Assignments = map<string, Occupant>
  type Catalogue = map<string, PricePair>

  /** The page state the pricing reads: the cart, the fetched event, the seats shown, the assignments. */
  datatype CartState = CartState(cart: Option<CartPayload>, event: Option<EventPricing>,
                                 seatDetails: seq<Seat>, assignments: Assignments)

  /** A number a JavaScript `||` keeps: present and not zero. */
  predicate Truthy(v: Option<int>) {
    v.Some? && v.value != 0
  }

  // ---------------------------------------------------------------- catalogue

  /** An entry the catalogue accepts: a non-empty name and two numeric prices. */
  predicate Usable(e: TicketTypeEntry) {
    e.name != "" && e.adultPrice.Some? && e.childPrice.Some?
  }

  function Prices(e: TicketTypeEntry): PricePair
    requires Usable(e)
  {
    PricePair(e.adultPrice.value, e.childPrice.value)
  }

  /** Entry `i` is usable and no later usable entry has its name. */
  predicate LastUsableFor(entries: seq<TicketTypeEntry>, i: int) {
    0 <= i < |entries| && Usable(entries[i])
    && forall j :: i < j < |entries| ==> !(Usable(entries[j]) && entries[j].name == entries[i].name)
  }

  /**
   * The name-to-prices map built entry by entry: exactly the names of usable
   * entries, each mapped to the prices of the last usable entry with that name.
   */
  function BuildCatalogue(entries: seq<TicketTypeEntry>): (c: Catalogue)
    ensures forall k :: k in c <==> exists i :: 0 <= i < |entries| && Usable(entries[i]) && entries[i].name == k
    ensures forall i :: LastUsableFor(entries, i) ==> c[entries[i].name] == Prices(entries[i])
    decreases |entries|
  {
    if |entries| == 0 then map[]
    else
      var init := entries[..|entries| - 1];
      var e := entries[|entries| - 1];
      var c0 := BuildCatalogue(init);
      var c := if Usable(e) then c0[e.name := Prices(e)] else c0;
      BuildCatalogueStep(entries, c0, c);
      c
  }

  /** The step of `BuildCatalogue`: adding the last entry to the catalogue of the others. */
  lemma BuildCatalogueStep(entries: seq<TicketTypeEntry>, c0: Catalogue, c: Catalogue)
    requires |entries| > 0
    requires var init := entries[..|entries| - 1];
      && (forall k :: k in c0 <==> exists i :: 0 <= i < |init| && Usable(init[i]) && init[i].name == k)
      && (forall i :: LastUsableFor(init, i) ==> c0[init[i].name] == Prices(init[i]))
    requires var e := entries[|entries| - 1]; c == if Usable(e) then c0[e.name := Prices(e)] else c0
    ensures forall k :: k in c <==> exists i :: 0 <= i < |entries| && Usable(entries[i]) && entries[i].name == k
    ensures forall i :: LastUsableFor(entries, i) ==> c[entries[i].name] == Prices(entries[i])
  {
    CatalogueKeysStep(entries, c0, c);
    CatalogueValuesStep(entries, c0, c);
  }

  /** The keys after the step: the names of usable entries, the last one included. */
  lemma CatalogueKeysStep(entries: seq<TicketTypeEntry>, c0: Catalogue, c: Catalogue)
    requires |entries| > 0
    requires var init := entries[..|entries| - 1];
      forall k :: k in c0 <==> exists i :: 0 <= i < |init| && Usable(init[i]) && init[i].name == k
    requires var e := entries[|entries| - 1]; c.Keys == if Usable(e) then c0.Keys + {e.name} else c0.Keys
    ensures forall k :: k in c <==> exists i :: 0 <= i < |entries| && Usable(entries[i]) && entries[i].name == k
  {
    var n := |entries| - 1;
    var init := entries[..n];
    var e := entries[n];
    assert forall i :: 0 <= i < n ==> init[i] == entries[i];
    forall k | k in c
      ensures exists i :: 0 <= i < |entries| && Usable(entries[i]) && entries[i].name == k
    {
      if Usable(e) && k == e.name {
        assert Usable(entries[n]) && entries[n].name == k;
      } else {
        var i :| 0 <= i < |init| && Usable(init[i]) && init[i].name == k;
        assert Usable(entries[i]) && entries[i].name == k;
      }
    }
    forall k, i | 0 <= i < |entries| && Usable(entries[i]) && entries[i].name == k
      ensures k in c
    {
      if i < n {
        assert Usable(init[i]) && init[i].name == k;
      }
    }
  }

  /** The prices after the step: each name keeps the prices of its last usable entry. */
  lemma CatalogueValuesStep(entries: seq<TicketTypeEntry>, c0: Catalogue, c: Catalogue)
    requires |entries| > 0
    requires var init := entries[..|entries| - 1];
      forall i :: LastUsableFor(init, i) ==> init[i].name in c0 && c0[init[i].name] == Prices(init[i])
    requires var e := entries[|entries| - 1]; c == if Usable(e) then c0[e.name := Prices(e)] else c0
    ensures forall i :: LastUsableFor(entries, i) ==> entries[i].name in c && c[entries[i].name] == Prices(entries[i])
  {
    var n := |entries| - 1;
    var init := entries[..n];
    var e := entries[n];
    forall i | LastUsableFor(entries, i)
      ensures entries[i].name in c && c[entries[i].name] == Prices(entries[i])
    {
      if i < n {
        assert init[i] == entries[i];
        assert forall j :: i < j < n ==> init[j] == entries[j];
        assert LastUsableFor(init, i);
        assert !(Usable(e) && e.name == entries[i].name);
      }
    }
  }

  /** `event?.ticketTypes || cartData?.eventSummary?.ticketTypes || []`: a present list, even an empty one, wins. */
  function TicketTypes(st: CartState): seq<TicketTypeEntry> {
    if st.event.Some? && st.event.value.ticketTypes.Some? then st.event.value.ticketTypes.value
    else if st.cart.Some? && st.cart.value.summary.Some? && st.cart.value.summary.value.ticketTypes.Some? then
      st.cart.value.summary.value.ticketTypes.value
    else []
  }

  /**
   * The catalogue of the page: built from the fetched event's ticket types when
   * it has a list, otherwise from the cached summary's, otherwise empty.
   */
  function CatalogueOf(st: CartState): (c: Catalogue)
    ensures st.event.Some? && st.event.value.ticketTypes.Some? ==>
              c == BuildCatalogue(st.event.value.ticketTypes.value)
    ensures ((st.event.None? || st.event.value.ticketTypes.None?)
             && (st.cart.None? || st.cart.value.summary.None? || st.cart.value.summary.value.ticketTypes.None?))
            ==> c == map[]
    ensures (st.event.None? || st.event.value.ticketTypes.None?)
            && st.cart.Some? && st.cart.value.summary.Some? && st.cart.value.summary.value.ticketTypes.Some?
            ==> c == BuildCatalogue(st.cart.value.summary.value.ticketTypes.value)
  {
    BuildCatalogue(TicketTypes(st))
  }

  // ---------------------------------------------------------------- seat price

  /** `event?.defaultPrice || cartData?.eventSummary?.defaultPrice || 0`. */
  function FallbackPrice(st: CartState): int {
    if st.event.Some? && Truthy(st.event.value.defaultPrice) then st.event.value.defaultPrice.value
    else if st.cart.Some? && st.cart.value.summary.Some? && Truthy(st.cart.value.summary.value.defaultPrice) then
      st.cart.value.summary.value.defaultPrice.value
    else 0
  }

  predicate IsChild(a: Assignments, id: string) {
    id in a && a[id] == Child
  }

  /** The seat names a ticket type the catalogue knows. */
  predicate HasCataloguePrice(st: CartState, s: Seat) {
    s.ticketType != "" && s.ticketType in CatalogueOf(st)
  }

  /**
   * `getSeatPrice`: no seat costs 0; a seat whose ticket type is in the
   * catalogue costs the child price when assigned `child` and the adult price
   * otherwise (also when unassigned); any other seat costs its positive base
   * price, else the fallback, whatever its assignment.
   */
  function SeatPrice(st: CartState, seat: Option<Seat>): (price: int)
    ensures seat.None? ==> price == 0
    ensures seat.Some? && HasCataloguePrice(st, seat.value) ==>
              var pair := CatalogueOf(st)[seat.value.ticketType];
              price == if IsChild(st.assignments, seat.value.id) then pair.childPrice else pair.adultPrice
    ensures seat.Some? && !HasCataloguePrice(st, seat.value) ==>
              price == (if seat.value.basePrice.Some? && seat.value.basePrice.value > 0
                        then seat.value.basePrice.value else FallbackPrice(st))
  {
    match seat
    case None => 0
    case Some(s) =>
      var isChild := IsChild(st.assignments, s.id);
      var catalogue := CatalogueOf(st);
      if s.ticketType != "" && s.ticketType in catalogue then
        var pair := catalogue[s.ticketType];
        if isChild then pair.childPrice else pair.adultPrice
      else if s.basePrice.Some? && s.basePrice.value > 0 then s.basePrice.value
      else FallbackPrice(st)
  }

  /** Without a catalogue price, the assignment does not change what a seat costs. */
  lemma NoCataloguePriceIgnoresOccupant(st: CartState, a: Assignments, s: Seat)
    requires !HasCataloguePrice(st, s)
    ensures SeatPrice(st.(assignments := a), Some(s)) == SeatPrice(st, Some(s))
  {
    assert CatalogueOf(st.(assignments := a)) == CatalogueOf(st);
  }

  // ---------------------------------------------------------------- subtotal

  /** `seats.reduce((sum, seat) => sum + price(seat), 0)`, folded from the left. */
  function FoldPrices(price: Seat -> int, seats: seq<Seat>): int
    decreases |seats|
  {
    if |seats| == 0 then 0 else FoldPrices(price, seats[..|seats| - 1]) + price(seats[|seats| - 1])
  }

  /** The page's `getSeatPrice` as a function of the seat. */
  function PriceOf(st: CartState): Seat -> int {
    s => SeatPrice(st, Some(s))
  }

  function Subtotal(st: CartState): int {
    FoldPrices(PriceOf(st), st.seatDetails)
  }

  /** Plain sum of a list of numbers, folded from the right. */
  function Sum(xs: seq<int>): int {
    if |xs| == 0 then 0 else xs[0] + Sum(xs[1..])
  }

  /** The price of each seat, in order. */
  function PriceList(price: Seat -> int, seats: seq<Seat>): (ps: seq<int>)
    ensures |ps| == |seats|
    ensures forall k :: 0 <= k < |seats| ==> ps[k] == price(seats[k])
  {
    seq(|seats|, k requires 0 <= k < |seats| => price(seats[k]))
  }

  lemma {:induction false} SumAppend(xs: seq<int>, x: int)
    ensures Sum(xs + [x]) == Sum(xs) + x
    decreases |xs|
  {
    if |xs| == 0 {
      assert xs + [x] == [x];
    } else {
      assert (xs + [x])[1..] == xs[1..] + [x];
      SumAppend(xs[1..], x);
    }
  }

  /** The running total is the sum of the seats' prices, the empty list totalling 0. */
  lemma {:induction false} FoldIsSumOfPrices(price: Seat -> int, seats: seq<Seat>)
    ensures FoldPrices(price, seats) == Sum(PriceList(price, seats))
    decreases |seats|
  {
    if |seats| > 0 {
      var init := seats[..|seats| - 1];
      var last := seats[|seats| - 1];
      FoldIsSumOfPrices(price, init);
      assert PriceList(price, seats) == PriceList(price, init) + [price(last)];
      SumAppend(PriceList(price, init), price(last));
    }
  }

  /** The total of two seat lists shown together is the sum of their totals. */
  lemma {:induction false} FoldPricesAppend(price: Seat -> int, xs: seq<Seat>, ys: seq<Seat>)
    ensures FoldPrices(price, xs + ys) == FoldPrices(price, xs) + FoldPrices(price, ys)
    decreases |ys|
  {
    if |ys| == 0 {
      assert xs + ys == xs;
    } else {
      assert (xs + ys)[..|xs + ys| - 1] == xs + ys[..|ys| - 1];
      FoldPricesAppend(price, xs, ys[..|ys| - 1]);
    }
  }

  /** Two pricings that agree on every seat of the list give the same total. */
  lemma {:induction false} FoldPricesAgree(p: Seat -> int, q: Seat -> int, seats: seq<Seat>)
    requires forall k :: 0 <= k < |seats| ==> p(seats[k]) == q(seats[k])
    ensures FoldPrices(p, seats) == FoldPrices(q, seats)
    decreases |seats|
  {
    if |seats| > 0 {
      FoldPricesAgree(p, q, seats[..|seats| - 1]);
    }
  }

  /** The order summary: the seat count, the subtotal and the estimated total. */
  datatype OrderSummary = OrderSummary(seatCount: nat, subtotal: int, estimatedTotal: int)

  /** The summary adds no fees or taxes: both the subtotal and the estimated total are the sum of the seat prices. */
  function Summarise(st: CartState): (r: OrderSummary)
    ensures r.seatCount == |st.seatDetails|
    ensures r.subtotal == Sum(PriceList(PriceOf(st), st.seatDetails))
    ensures r.estimatedTotal == r.subtotal
  {
    FoldIsSumOfPrices(PriceOf(st), st.seatDetails);
    var subtotal := Subtotal(st);
    OrderSummary(|st.seatDetails|, subtotal, subtotal)
  }

  // ---------------------------------------------------------------- assignments

  /** Ids of the given seats that are present (truthy). */
  function SeatIds(seats: seq<Seat>): set<string> {
    set k | 0 <= k < |seats| && seats[k].id != "" :: seats[k].id
  }

  /** The assignment set up from the cached seats: every present id is `adult`. */
  function InitialAssignments(cached: Option<seq<Seat>>): (a: Assignments)
    ensures a.Keys == (if cached.Some? then SeatIds(cached.value) else {})
    ensures forall id :: id in a ==> a[id] == Adult
  {
    match cached
    case None => map[]
    case Some(seats) => map id | id in SeatIds(seats) :: Adult
  }

  /**
   * After the seats are fetched: every present id still missing is set to
   * `adult`, and no existing assignment is touched.
   */
  function RefreshAssignments(prev: Assignments, seats: seq<Seat>): (a: Assignments)
    ensures a.Keys == prev.Keys + SeatIds(seats)
    ensures forall id :: id in prev ==> a[id] == prev[id]
    ensures forall id :: id in a && id !in prev ==> a[id] == Adult
    decreases |seats|
  {
    if |seats| == 0 then prev
    else
      var s := seats[0];
      var next := if s.id != "" && s.id !in prev then prev[s.id := Adult] else prev;
      var rest := seats[1..];
      assert SeatIds(seats) == (if s.id != "" then {s.id} else {}) + SeatIds(rest) by {
        assert forall k :: 0 < k < |seats| ==> seats[k] == rest[k - 1];
        assert forall k :: 0 <= k < |rest| ==> rest[k] == seats[k + 1];
      }
      RefreshAssignments(next, rest)
  }

  /** Refreshing with the same seats a second time changes nothing. */
  lemma RefreshIdempotent(prev: Assignments, seats: seq<Seat>)
    ensures RefreshAssignments(RefreshAssignments(prev, seats), seats) == RefreshAssignments(prev, seats)
  {
  }

  /**
   * `toggleSeatTicketType`: `adult` becomes `child`, anything else (including
   * no assignment) becomes `adult`; every other seat keeps its assignment.
   */
  function Toggle(a: Assignments, id: string): (r: Assignments)
    ensures r.Keys == a.Keys + {id}
    ensures id in a && a[id] == Adult ==> r[id] == Child
    ensures id in a && a[id] == Child ==> r[id] == Adult
    ensures id !in a ==> r[id] == Adult
    ensures forall k :: k in a && k != id ==> r[k] == a[k]
  {
    a[id := if id in a && a[id] == Adult then Child else Adult]
  }

  /** Toggling an assigned seat twice restores the assignment. */
  lemma ToggleTwiceRestores(a: Assignments, id: string)
    requires id in a
    ensures Toggle(Toggle(a, id), id) == a
  {
  }

  /** Toggling an unassigned seat twice leaves it `child`. */
  lemma ToggleTwiceFromUnassigned(a: Assignments, id: string)
    requires id !in a
    ensures Toggle(Toggle(a, id), id) == a[id := Child]
  {
  }

  /**
   * What a toggle does to one seat's price: another seat's price is unchanged;
   * a catalogue-priced toggled seat costs the child price if it was `adult`
   * and the adult price otherwise; a seat without a catalogue price keeps its price.
   */
  lemma TogglePriceEffect(st: CartState, id: string, s: Seat)
    ensures var after := st.(assignments := Toggle(st.assignments, id));
      && (s.id != id ==> SeatPrice(after, Some(s)) == SeatPrice(st, Some(s)))
      && (!HasCataloguePrice(st, s) ==> SeatPrice(after, Some(s)) == SeatPrice(st, Some(s)))
      && (s.id == id && HasCataloguePrice(st, s) ==>
            var pair := CatalogueOf(st)[s.ticketType];
            var wasAdult := id in st.assignments && st.assignments[id] == Adult;
            SeatPrice(after, Some(s)) == if wasAdult then pair.childPrice else pair.adultPrice)
  {
    var after := st.(assignments := Toggle(st.assignments, id));
    assert CatalogueOf(after) == CatalogueOf(st);
    assert FallbackPrice(after) == FallbackPrice(st);
    assert s.id != id ==> IsChild(after.assignments, s.id) == IsChild(st.assignments, s.id);
    assert s.id == id ==> (IsChild(after.assignments, s.id) <==> id in st.assignments && st.assignments[id] == Adult);
  }

  /** Toggling an id none of the shown seats has leaves the subtotal as it was. */
  lemma ToggleElsewhereKeepsSubtotal(st: CartState, id: string)
    requires forall k :: 0 <= k < |st.seatDetails| ==> st.seatDetails[k].id != id
    ensures Subtotal(st.(assignments := Toggle(st.assignments, id))) == Subtotal(st)
  {
    var after := st.(assignments := Toggle(st.assignments, id));
    forall k | 0 <= k < |st.seatDetails|
      ensures PriceOf(after)(st.seatDetails[k]) == PriceOf(st)(st.seatDetails[k])
    {
      TogglePriceEffect(st, id, st.seatDetails[k]);
    }
    FoldPricesAgree(PriceOf(after), PriceOf(st), st.seatDetails);
  }

  // ---------------------------------------------------------------- seats shown and proceeding

  /** The fetched seats whose id is among the cart's ids, in fetched order. */
  function InCart(fetched: seq<Seat>, seatIds: seq<string>): (r: seq<Seat>)
    ensures |r| <= |fetched|
    ensures forall s :: s in r <==> s in fetched && s.id in seatIds
    ensures forall s :: multiset(r)[s] == if s.id in seatIds then multiset(fetched)[s] else 0
  {
    if |fetched| == 0 then []
    else
      var rest := InCart(fetched[1..], seatIds);
      assert fetched == [fetched[0]] + fetched[1..];
      if fetched[0].id in seatIds then [fetched[0]] + rest else rest
  }

  /** The filter keeps the fetched order: filtering a concatenation concatenates the results. */
  lemma {:induction false} InCartAppend(xs: seq<Seat>, ys: seq<Seat>, seatIds: seq<string>)
    ensures InCart(xs + ys, seatIds) == InCart(xs, seatIds) + InCart(ys, seatIds)
    decreases |xs|
  {
    if |xs| == 0 {
      assert xs + ys == ys;
    } else {
      assert (xs + ys)[0] == xs[0];
      assert (xs + ys)[1..] == xs[1..] + ys;
      InCartAppend(xs[1..], ys, seatIds);
    }
  }

  /** One seat is kept exactly when its id is in the cart. */
  lemma InCartSingle(s: Seat, seatIds: seq<string>)
    ensures InCart([s], seatIds) == if s.id in seatIds then [s] else []
  {
    assert [s][1..] == [];
  }

  /**
   * The seats the cart shows: the fetched seats in the cart, or, when none of
   * the fetched seats is in the cart, the cached seats (none if nothing was cached).
   */
  function SelectSeats(fetched: seq<Seat>, seatIds: seq<string>, cached: Option<seq<Seat>>): (r: seq<Seat>)
    ensures (exists s :: s in fetched && s.id in seatIds) ==> r == InCart(fetched, seatIds)
    ensures (exists s :: s in fetched && s.id in seatIds) ==>
              forall s :: s in r <==> s in fetched && s.id in seatIds
    ensures (forall s :: s in fetched ==> s.id !in seatIds) ==> r == cached.GetOr([])
  {
    var selected := InCart(fetched, seatIds);
    assert |selected| > 0 ==> selected[0] in fetched && selected[0].id in seatIds;
    if |selected| > 0 then selected else cached.GetOr([])
  }

  const HoldSeconds: nat := 600

  /** The body of the hold request: the cart's event and seat ids, held for 600 seconds. */
  datatype HoldRequest = HoldRequest(eventId: string, seatIds: seq<string>, holdSeconds: nat)

  /** `handleProceed`: no cart, or a cart without seat ids, is refused before any request is built. */
  function Proceed(cart: Option<CartPayload>): (r: Option<HoldRequest>)
    ensures r.None? <==> cart.None? || |cart.value.seatIds| == 0
    ensures r.Some? ==> r.value.seatIds == cart.value.seatIds && r.value.eventId == cart.value.eventId
    ensures r.Some? ==> r.value.holdSeconds == 600
  {
    match cart
    case None => None
    case Some(c) => if |c.seatIds| == 0 then None else Some(HoldRequest(c.eventId, c.seatIds, HoldSeconds))
  }

  // ---------------------------------------------------------------- worked example

  /**
   * Event default 500 and a "VIP" ticket type at 1000 adult / 700 child: a VIP
   * seat assigned `child` costs 700; a seat without a ticket type costs 500
   * both as adult and as child.
   */
  lemma VipChildExample()
    ensures var vip := TicketTypeEntry("VIP", Some(1000), Some(700));
      var a := Seat("A", "VIP", None);
      var b := Seat("B", "", None);
      var st := CartState(None, Some(EventPricing(Some([vip]), Some(500))), [a, b], map["A" := Child, "B" := Child]);
      && SeatPrice(st, Some(a)) == 700
      && SeatPrice(st, Some(b)) == 500
      && SeatPrice(st.(assignments := map["B" := Adult]), Some(b)) == 500
      && Subtotal(st) == 1200
  {
    var vip := TicketTypeEntry("VIP", Some(1000), Some(700));
    var a := Seat("A", "VIP", None);
    var b := Seat("B", "", None);
    var st := CartState(None, Some(EventPricing(Some([vip]), Some(500))), [a, b], map["A" := Child, "B" := Child]);
    assert LastUsableFor([vip], 0);
    assert CatalogueOf(st) == map["VIP" := PricePair(1000, 700)];
    assert HasCataloguePrice(st, a) && !HasCataloguePrice(st, b);
    assert FallbackPrice(st) == 500;
    assert SeatPrice(st, Some(a)) == 700;
    assert SeatPrice(st, Some(b)) == 500;
    assert [a, b][..1] == [a] && [a][..0] == [];
    assert FoldPrices(PriceOf(st), [a]) == 700;
  }
}
