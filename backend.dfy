/** The request handlers of the seating backend that decide anything:
    registering a walk-in, booking a reservation, and allocating a table.
    The JSON files the handlers load and save are passed in as sequences and
    the collections they would save are returned. */
module Backend {
  import opened Records
  import opened Filtering
  import opened Ranking

  datatype AllocationError = NoAvailableTables | NoCustomersWaiting

  /** The answer of an allocation: the table as it now stands together with
      the party seated at it, or one of the two client errors. */
  datatype Allocation = Allocated(table: Table, customer: Candidate) | Refused(error: AllocationError)

  // ---------------------------------------------------------------- records

  /** Ids as `len(collection) + 1` hands them out when nothing is ever removed. */
  ghost predicate CustomersNumbered(customers: seq<Customer>) {
    forall i :: 0 <= i < |customers| ==> customers[i].id == i + 1
  }

  ghost predicate ReservationsNumbered(reservations: seq<Reservation>) {
    forall i :: 0 <= i < |reservations| ==> reservations[i].id == i + 1
  }

  /** `add_customer`: appends a walk-in who joins the queue at `now`. */
  method AddCustomer(customers: seq<Customer>, name: string, groupSize: int, now: Instant)
    returns (updated: seq<Customer>, created: Customer)
    ensures created == Customer(|customers| + 1, name, groupSize, now, 0)
    ensures updated == customers + [created]
    ensures CustomersNumbered(customers) ==> CustomersNumbered(updated)
    ensures CustomersNumbered(customers) ==> forall c :: c in customers ==> c.id != created.id
  {
    created := Customer(|customers| + 1, name, groupSize, now, 0);
    updated := customers + [created];
  }

  /** `book_table`: appends an active reservation booked at `now` that
      expires ten minutes later. */
  method BookTable(reservations: seq<Reservation>, name: string, groupSize: int, now: Instant)
    returns (updated: seq<Reservation>, created: Reservation)
    ensures created == Reservation(|reservations| + 1, name, groupSize, now, now + ReservationLifetime, "active")
    ensures updated == reservations + [created]
    ensures ReservationsNumbered(reservations) ==> ReservationsNumbered(updated)
    ensures forall t :: created in ActiveReservations(updated, t) <==> t < now + ReservationLifetime
  {
    created := Reservation(|reservations| + 1, name, groupSize, now, now + ReservationLifetime, "active");
    updated := reservations + [created];
    forall t ensures created in ActiveReservations(updated, t) <==> t < now + ReservationLifetime {
      assert updated[|updated| - 1] == created;
    }
  }

  // ---------------------------------------------------------------- expiry

  function StillActive(now: Instant): Reservation -> bool {
    (r: Reservation) => r.expiresAt > now
  }

  /** The reservations that survive an allocation run at `now`: expiry is
      exclusive, so one expiring exactly at `now` is dropped. */
  function ActiveReservations(reservations: seq<Reservation>, now: Instant): (kept: seq<Reservation>)
    ensures forall k :: 0 <= k < |kept| ==> kept[k] in reservations && kept[k].expiresAt > now
    ensures forall i :: 0 <= i < |reservations| && reservations[i].expiresAt > now ==> reservations[i] in kept
  {
    Filter(reservations, StillActive(now))
  }

  /** The surviving reservations are exactly those at the positions whose
      reservation expires after `now`, in their original order. */
  lemma ActiveReservationsInOrder(reservations: seq<Reservation>, now: Instant)
    ensures var kept, idx := ActiveReservations(reservations, now), KeptIndices(reservations, StillActive(now));
            && |kept| == |idx|
            && (forall k :: 0 <= k < |idx| ==> kept[k] == reservations[idx[k]])
            && (forall k, l :: 0 <= k < l < |idx| ==> idx[k] < idx[l])
            && (forall i :: 0 <= i < |reservations| ==> (i in idx <==> reservations[i].expiresAt > now))
  {
    FilterSelectsKeptIndices(reservations, StillActive(now));
  }

  /** The `count + 1` numbering can hand out an id that is still in use:
      once an allocation run after the first of two reservations has expired
      has saved the filtered list, the next booking gets the id of the one
      that is left. */
  lemma IdReusedAfterExpiry(first: Reservation, second: Reservation, now: Instant)
    requires first.id == 1 && second.id == 2
    requires first.expiresAt <= now < second.expiresAt
    ensures ReservationsNumbered([first, second])
    ensures ActiveReservations([first, second], now) == [second]
    ensures |ActiveReservations([first, second], now)| + 1 == second.id
  {
    var rs := [first, second];
    assert rs[..1] == [first] && [first][..0] == [];
    assert Filter([first], StillActive(now)) == [];
    assert Filter(rs, StillActive(now)) == [second];
  }

  // ---------------------------------------------------------------- tables

  predicate IsAvailable(t: Table) {
    t.status == Available
  }

  /** `[t for t in tables if t["status"] == "available"]` */
  function AvailableTables(tables: seq<Table>): (available: seq<Table>)
    ensures forall k :: 0 <= k < |available| ==> available[k] in tables && available[k].status == Available
    ensures forall i :: 0 <= i < |tables| && tables[i].status == Available ==> tables[i] in available
  {
    Filter(tables, IsAvailable)
  }

  /** Position `i` of `tables` holds the first available table whose
      capacity is closest to `groupSize`. */
  ghost predicate IsBestFitAt(tables: seq<Table>, groupSize: int, i: int) {
    && 0 <= i < |tables|
    && tables[i].status == Available
    && (forall j :: 0 <= j < |tables| && tables[j].status == Available ==>
          Misfit(tables[i], groupSize) <= Misfit(tables[j], groupSize))
    && (forall j :: 0 <= j < i && tables[j].status == Available ==>
          Misfit(tables[i], groupSize) < Misfit(tables[j], groupSize))
  }

  /** An available table sits in the available list at the rank of its
      position among the available positions. */
  lemma AvailableRank(tables: seq<Table>, j: int) returns (l: int)
    requires 0 <= j < |tables| && tables[j].status == Available
    ensures 0 <= l < |KeptIndices(tables, IsAvailable)| && KeptIndices(tables, IsAvailable)[l] == j
    ensures l < |AvailableTables(tables)| && AvailableTables(tables)[l] == tables[j]
  {
    FilterSelectsKeptIndices(tables, IsAvailable);
    assert IsAvailable(tables[j]);
    l :| 0 <= l < |KeptIndices(tables, IsAvailable)| && KeptIndices(tables, IsAvailable)[l] == j;
  }

  /** Taking `min` over the available tables picks, in the full table list,
      the first available table of least misfit. */
  lemma BestFitAmongAvailable(tables: seq<Table>, groupSize: int)
    requires AvailableTables(tables) != []
    ensures exists i :: IsBestFitAt(tables, groupSize, i)
                        && tables[i] == AvailableTables(tables)[BestFitIndex(AvailableTables(tables), groupSize)]
  {
    var available := AvailableTables(tables);
    var idx := KeptIndices(tables, IsAvailable);
    FilterSelectsKeptIndices(tables, IsAvailable);
    var k := BestFitIndex(available, groupSize);
    var i := idx[k];
    assert tables[i] == available[k] && IsAvailable(tables[i]);
    forall j | 0 <= j < |tables| && tables[j].status == Available
      ensures Misfit(tables[i], groupSize) <= Misfit(tables[j], groupSize)
      ensures j < i ==> Misfit(tables[i], groupSize) < Misfit(tables[j], groupSize)
    {
      var l := AvailableRank(tables, j);
      if j < i {
        KeptIndicesRankOrder(tables, IsAvailable, k, l);
      }
    }
    assert IsBestFitAt(tables, groupSize, i);
  }

  /** `after` is `before` with every table carrying `occupied.id` replaced by
      `occupied`, and nothing else changed. */
  ghost predicate ReplacedById(before: seq<Table>, after: seq<Table>, occupied: Table) {
    && |after| == |before|
    && forall j :: 0 <= j < |before| ==>
         after[j] == if before[j].id == occupied.id then occupied else before[j]
  }

  /** Tables only ever go from available to occupied: writing an occupied
      table back over an available one frees nothing and takes one table out
      of the available list for good. */
  lemma OccupyingShrinksAvailable(before: seq<Table>, after: seq<Table>, occupied: Table, i: int)
    requires ReplacedById(before, after, occupied) && occupied.status == Occupied
    requires 0 <= i < |before| && before[i].id == occupied.id && before[i].status == Available
    ensures forall j :: 0 <= j < |before| && before[j].status == Occupied ==> after[j].status == Occupied
    ensures |AvailableTables(after)| < |AvailableTables(before)|
  {
    assert !IsAvailable(after[i]) && IsAvailable(before[i]);
    FilterShrinksStrictly(before, after, IsAvailable, i);
  }

  /** Lines that mark the chosen table occupied and write it back over every
      entry with the same id. */
  method OccupyTable(tables: seq<Table>, best: Table) returns (occupied: Table, updated: seq<Table>)
    ensures occupied == best.(status := Occupied)
    ensures ReplacedById(tables, updated, occupied)
  {
    occupied := best.(status := Occupied);
    updated := tables;
    var i := 0;
    while i < |updated|
      invariant 0 <= i <= |updated| == |tables|
      invariant forall j :: 0 <= j < i ==> updated[j] == if tables[j].id == best.id then occupied else tables[j]
      invariant forall j :: i <= j < |tables| ==> updated[j] == tables[j]
    {
      if updated[i].id == occupied.id {
        updated := updated[i := occupied];
      }
      i := i + 1;
    }
  }

  // ---------------------------------------------------------------- scoring

  /** Walk-ins first, in queue order, then the surviving reservations in order. */
  function Candidates(customers: seq<Customer>, kept: seq<Reservation>, now: Instant): seq<Candidate> {
    seq(|customers|, i requires 0 <= i < |customers| => WalkInCandidate(customers[i], now))
    + seq(|kept|, j requires 0 <= j < |kept| => ReservationCandidate(kept[j], now))
  }

  /** The two loops that score every walk-in and every surviving reservation. */
  method BuildCandidates(customers: seq<Customer>, kept: seq<Reservation>, now: Instant)
    returns (candidates: seq<Candidate>)
    ensures |candidates| == |customers| + |kept|
    ensures forall i :: 0 <= i < |customers| ==> candidates[i] == WalkInCandidate(customers[i], now)
    ensures forall j :: 0 <= j < |kept| ==> candidates[|customers| + j] == ReservationCandidate(kept[j], now)
  {
    candidates := [];
    for i := 0 to |customers|
      invariant |candidates| == i
      invariant forall k :: 0 <= k < i ==> candidates[k] == WalkInCandidate(customers[k], now)
    {
      candidates := candidates + [WalkInCandidate(customers[i], now)];
    }
    for j := 0 to |kept|
      invariant |candidates| == |customers| + j
      invariant forall k :: 0 <= k < |customers| ==> candidates[k] == WalkInCandidate(customers[k], now)
      invariant forall k :: 0 <= k < j ==> candidates[|customers| + k] == ReservationCandidate(kept[k], now)
    {
      candidates := candidates + [ReservationCandidate(kept[j], now)];
    }
  }

  // ---------------------------------------------------------------- allocation

  /** `allocate_table`. `kept` is the reservation list it saves (on every
      path, also before either error), `updatedTables` the table list it
      saves (on success only; the input otherwise). */
  method AllocateTable(tables: seq<Table>, customers: seq<Customer>, reservations: seq<Reservation>, now: Instant)
    returns (kept: seq<Reservation>, updatedTables: seq<Table>, result: Allocation)
    ensures kept == ActiveReservations(reservations, now)
    ensures result == Refused(NoAvailableTables) <==> forall t :: t in tables ==> t.status != Available
    ensures result == Refused(NoCustomersWaiting) <==>
              (exists t :: t in tables && t.status == Available) && customers == [] && kept == []
    ensures result.Allocated? <==>
              (exists t :: t in tables && t.status == Available) && (customers != [] || kept != [])
    ensures result.Refused? ==> updatedTables == tables
    ensures result.Allocated? ==>
              var candidates := Candidates(customers, kept, now);
              && (exists k :: IsFirstMaxAt(candidates, k) && result.customer == candidates[k])
              && (exists i :: IsBestFitAt(tables, result.customer.groupSize, i)
                              && result.table == tables[i].(status := Occupied)
                              && ReplacedById(tables, updatedTables, result.table))
    ensures result.Allocated? ==>
              && |AvailableTables(updatedTables)| < |AvailableTables(tables)|
              && forall j :: 0 <= j < |tables| && tables[j].status == Occupied ==> updatedTables[j].status == Occupied
  {
    kept := ActiveReservations(reservations, now);
    // The filtered reservations are saved at this point, whatever follows.

    var available := AvailableTables(tables);
    if available == [] {
      return kept, tables, Refused(NoAvailableTables);
    }
    assert available[0] in tables;

    var candidates := BuildCandidates(customers, kept, now);
    if candidates == [] {
      return kept, tables, Refused(NoCustomersWaiting);
    }
    assert candidates == Candidates(customers, kept, now);

    var ranked := SortByScoreDesc(candidates);
    var selected := ranked[0];
    SortedHeadIsFirstMax(candidates);

    var k := BestFitIndex(available, selected.groupSize);
    var best := available[k];
    BestFitAmongAvailable(tables, selected.groupSize);

    var occupied;
    occupied, updatedTables := OccupyTable(tables, best);
    result := Allocated(occupied, selected);
    ghost var i :| IsBestFitAt(tables, selected.groupSize, i) && tables[i] == best;
    OccupyingShrinksAvailable(tables, updatedTables, occupied, i);
  }

  // ---------------------------------------------------------------- scenarios

  /** One table of four seats, one walk-in party of three who has just
      arrived: the table is given to that party. */
  method SeatFirstWalkIn(now: Instant) {
    var customers, amy := AddCustomer([], "Amy", 3, now);
    var tables := [Table(1, 4, Available)];
    assert tables[0] in tables;
    var kept, updated, result := AllocateTable(tables, customers, [], now);
    assert customers != [];
    assert result.Allocated?;
    assert Candidates(customers, kept, now) == [WalkInCandidate(amy, now)];
    assert result.table == Table(1, 4, Occupied);
    assert result.customer.name == "Amy";
    assert updated == [Table(1, 4, Occupied)];
  }

  /** Allocation never removes or returns the customer list, so a party
      stays queued after it is seated. Here table 1 is already occupied and
      Amy is still queued; one call seats her at table 2. */
  method SeatSamePartyAgain(now: Instant) {
    var customers, amy := AddCustomer([], "Amy", 3, now);
    var tables := [Table(1, 4, Occupied), Table(2, 4, Available)];
    assert tables[1] in tables;
    var kept, updated, result := AllocateTable(tables, customers, [], now);
    assert Candidates(customers, kept, now) == [WalkInCandidate(amy, now)];
    assert result.Allocated? && result.customer.name == "Amy";
    assert result.table == Table(2, 4, Occupied);
    assert updated == [Table(1, 4, Occupied), Table(2, 4, Occupied)];
  }
}
