/** The seat ledger behind the views: the store of routes, trains and tickets as
    one value, the bookkeeping invariant it keeps, the confirmed/waitlist split,
    and one transition function per operation of tickets/views.py. */
module Ledger {
  import opened Models

  /** The database tables. `clock` stands for the creation timestamp of the next
      ticket; `nextRouteId` and `nextTrainId` are the next auto-increment ids. */
  datatype Db = Db(
    routes: map<RouteId, Route>,
    trains: map<TrainId, Train>,
    tickets: seq<Ticket>,
    nextRouteId: nat,
    nextTrainId: nat,
    clock: nat)

  const EmptyDb: Db := Db(map[], map[], [], 0, 0, 0)

  datatype Error = TrainNotFound | TooManySeats

  datatype Result<T> = Success(value: T) | Failure(error: Error)

  /** What a booking reports: seats requested, confirmed and waitlisted, and the
      train's available seats afterwards. */
  datatype Receipt = Receipt(requested: int, confirmed: int, waitlist: int, availableseats: int)

  /** Most seats one booking may request. */
  const MaxSeatsPerBooking: int := 6

  /** The fields every ticket the views create satisfies. */
  ghost predicate WellFormedTicket(t: Ticket)
  {
    && t.confirmedseats + t.waitlistseats == t.seatsbooked
    && t.seatsbooked <= MaxSeatsPerBooking
    && (t.status == Waitlist <==> t.confirmedseats == 0 && t.waitlistseats > 0)
  }

  /** The bookkeeping invariant of one train: the seats it no longer offers are
      exactly the seats confirmed on its tickets. */
  ghost predicate Balanced(db: Db, id: TrainId)
    requires id in db.trains
  {
    db.trains[id].totalseats - db.trains[id].availableseats == ConfirmedSum(db.tickets, id)
  }

  /** Every id in use is below its counter, so the next id is always fresh. */
  ghost predicate FreshIds(db: Db)
  {
    && (forall rid :: rid in db.routes ==> rid < db.nextRouteId)
    && (forall id :: id in db.trains ==> id < db.nextTrainId)
  }

  /** What every operation of the views preserves, whatever its inputs. */
  ghost predicate Consistent(db: Db)
  {
    && FreshIds(db)
    && (forall a, b :: a in db.routes && b in db.routes && db.routes[a] == db.routes[b] ==> a == b)
    && (forall id :: id in db.trains ==> db.trains[id].route in db.routes)
    && (forall t :: t in db.tickets ==> WellFormedTicket(t) && t.train in db.trains && t.bookedat < db.clock)
    && BookedInOrder(db.tickets)
    && (forall id :: id in db.trains ==> Balanced(db, id))
  }

  /** Seat counts are in range. The views keep this only for non-negative inputs. */
  ghost predicate SeatsBounded(db: Db)
  {
    && (forall id :: id in db.trains ==> 0 <= db.trains[id].availableseats <= db.trains[id].totalseats)
    && (forall t :: t in db.tickets ==> 0 <= t.confirmedseats && 0 <= t.waitlistseats)
  }

  lemma EmptyDbConsistent()
    ensures Consistent(EmptyDb) && SeatsBounded(EmptyDb)
  {
  }

  // ---------------------------------------------------------------------------
  // The confirmed/waitlist split of book_ticket

  datatype Allocation = Allocation(confirmed: int, waitlist: int, remaining: int, status: Status)

  /** Splits a request of `requested` seats against `available` seats. */
  function Allocate(requested: int, available: int): (a: Allocation)
    ensures a.confirmed + a.waitlist == requested
    ensures a.remaining == available - a.confirmed
    ensures requested <= available ==> a.confirmed == requested
    ensures requested > available ==> a.remaining == 0
    ensures a.status == Waitlist <==> a.confirmed == 0 && a.waitlist > 0
    ensures 0 <= requested && 0 <= available ==>
              0 <= a.confirmed <= requested && 0 <= a.waitlist && 0 <= a.remaining <= available
  {
    if requested <= available then
      Allocation(requested, 0, available - requested, Confirmed)
    else
      Allocation(available, requested - available, 0, if available == 0 then Waitlist else Confirmed)
  }

  /** The split confirms the smaller of the request and the available seats, and waitlists the rest. */
  lemma AllocateConfirmsMinimum(requested: int, available: int)
    ensures var a := Allocate(requested, available);
            a.confirmed == (if requested <= available then requested else available)
            && a.waitlist == requested - a.confirmed
  {
  }

  /** A ticket that is only partly waitlisted is still marked CONFIRMED, and an
      empty request on a train with seats left is CONFIRMED with no seats. */
  lemma AllocateStatusOddities(requested: int, available: int)
    ensures 0 < available < requested ==>
              Allocate(requested, available).status == Confirmed && Allocate(requested, available).waitlist > 0
    ensures requested == 0 <= available ==>
              Allocate(requested, available).status == Confirmed && Allocate(requested, available).confirmed == 0
  {
  }

  // ---------------------------------------------------------------------------
  // book_ticket

  /** Books `seats` seats on train `trainid`. */
  function BookStep(db: Db, trainid: TrainId, passenger: string, category: string, seats: int): (r: (Db, Result<Receipt>))
    ensures trainid !in db.trains ==> r == (db, Failure(TrainNotFound))
    ensures trainid in db.trains && seats > MaxSeatsPerBooking ==> r == (db, Failure(TooManySeats))
    ensures trainid in db.trains && seats <= MaxSeatsPerBooking ==>
              var (db', reply) := r;
              && |db'.tickets| == |db.tickets| + 1
              && db'.tickets[..|db.tickets|] == db.tickets
              && var t := db'.tickets[|db.tickets|];
              && t.train == trainid && t.passengername == passenger && t.category == category
              && t.seatsbooked == seats && t.confirmedseats + t.waitlistseats == seats
              && t.bookedat == db.clock
              && var a := Allocate(seats, db.trains[trainid].availableseats);
              && t.confirmedseats == a.confirmed && t.waitlistseats == a.waitlist && t.status == a.status
              && db'.trains.Keys == db.trains.Keys
              && (forall id :: id in db.trains && id != trainid ==> db'.trains[id] == db.trains[id])
              && db'.trains[trainid]
                 == db.trains[trainid].(availableseats := db.trains[trainid].availableseats - t.confirmedseats)
              && db'.routes == db.routes
              && db'.clock == db.clock + 1
              && db'.nextRouteId == db.nextRouteId && db'.nextTrainId == db.nextTrainId
              && reply == Success(Receipt(seats, t.confirmedseats, t.waitlistseats, db'.trains[trainid].availableseats))
  {
    if trainid !in db.trains then (db, Failure(TrainNotFound))
    else if seats > MaxSeatsPerBooking then (db, Failure(TooManySeats))
    else
      var train := db.trains[trainid];
      var a := Allocate(seats, train.availableseats);
      var ticket := Ticket(trainid, passenger, category, seats, a.confirmed, a.waitlist, a.status, db.clock);
      (db.(trains := db.trains[trainid := train.(availableseats := a.remaining)],
           tickets := db.tickets + [ticket],
           clock := db.clock + 1),
       Success(Receipt(seats, a.confirmed, a.waitlist, a.remaining)))
  }

  /** When the request fits, all of it is confirmed and the train loses that many seats. */
  lemma BookWhenSeatsFit(db: Db, trainid: TrainId, passenger: string, category: string, seats: int)
    requires trainid in db.trains && seats <= MaxSeatsPerBooking
    requires seats <= db.trains[trainid].availableseats
    ensures var (db', reply) := BookStep(db, trainid, passenger, category, seats);
            && reply == Success(Receipt(seats, seats, 0, db.trains[trainid].availableseats - seats))
            && db'.tickets[|db.tickets|].status == Confirmed
            && db'.trains[trainid].availableseats == db.trains[trainid].availableseats - seats
  {
  }

  /** When the request does not fit, the remaining seats are confirmed, the rest
      waitlisted, the train is emptied, and the ticket is WAITLIST exactly when
      nothing was confirmed. */
  lemma BookWhenSeatsShort(db: Db, trainid: TrainId, passenger: string, category: string, seats: int)
    requires trainid in db.trains && seats <= MaxSeatsPerBooking
    requires seats > db.trains[trainid].availableseats
    ensures var (db', reply) := BookStep(db, trainid, passenger, category, seats);
            var available := db.trains[trainid].availableseats;
            && reply == Success(Receipt(seats, available, seats - available, 0))
            && db'.trains[trainid].availableseats == 0
            && (db'.tickets[|db.tickets|].status == Waitlist <==> available == 0)
  {
  }

  /** Appending a well-formed ticket for `trainid`, while the train gives up as
      many available seats as the ticket confirms, keeps the store consistent. */
  lemma AppendTicketPreservesConsistency(db: Db, trainid: TrainId, train': Train, t: Ticket)
    requires Consistent(db) && trainid in db.trains
    requires train'.route == db.trains[trainid].route
    requires train'.totalseats - train'.availableseats
          == db.trains[trainid].totalseats - db.trains[trainid].availableseats + t.confirmedseats
    requires WellFormedTicket(t) && t.train == trainid && t.bookedat == db.clock
    ensures Consistent(db.(trains := db.trains[trainid := train'], tickets := db.tickets + [t], clock := db.clock + 1))
  {
    var db' := db.(trains := db.trains[trainid := train'], tickets := db.tickets + [t], clock := db.clock + 1);
    forall id | id in db'.trains ensures Balanced(db', id) {
      ConfirmedSumAppend(db.tickets, t, id);
      assert Balanced(db, id);
    }
    AppendedInOrder(db.tickets, t, db.clock);
  }

  /** A ticket stamped with the clock, which is past every stamp in the table, keeps the table in order. */
  lemma AppendedInOrder(tickets: seq<Ticket>, t: Ticket, clock: nat)
    requires BookedInOrder(tickets) && (forall u :: u in tickets ==> u.bookedat < clock)
    requires t.bookedat == clock
    ensures BookedInOrder(tickets + [t])
    ensures forall u :: u in tickets + [t] ==> u.bookedat < clock + 1
  {
    var r := tickets + [t];
    forall i, j | 0 <= i < j < |r| ensures r[i].bookedat < r[j].bookedat {
      assert r[i] == tickets[i] && tickets[i] in tickets;
      if j < |tickets| {
        assert r[j] == tickets[j];
      }
    }
  }

  lemma BookPreservesConsistency(db: Db, trainid: TrainId, passenger: string, category: string, seats: int)
    requires Consistent(db)
    ensures Consistent(BookStep(db, trainid, passenger, category, seats).0)
  {
    if trainid in db.trains && seats <= MaxSeatsPerBooking {
      var train := db.trains[trainid];
      var a := Allocate(seats, train.availableseats);
      var t := Ticket(trainid, passenger, category, seats, a.confirmed, a.waitlist, a.status, db.clock);
      var train' := train.(availableseats := a.remaining);
      AppendTicketPreservesConsistency(db, trainid, train', t);
      assert BookStep(db, trainid, passenger, category, seats).0
          == db.(trains := db.trains[trainid := train'], tickets := db.tickets + [t], clock := db.clock + 1);
    }
  }

  /** With a non-negative request, booking keeps every seat count in range. */
  lemma BookPreservesBounds(db: Db, trainid: TrainId, passenger: string, category: string, seats: int)
    requires Consistent(db) && SeatsBounded(db) && seats >= 0
    ensures SeatsBounded(BookStep(db, trainid, passenger, category, seats).0)
  {
    var db' := BookStep(db, trainid, passenger, category, seats).0;
    if trainid in db.trains && seats <= MaxSeatsPerBooking {
      var t := db'.tickets[|db.tickets|];
      assert db'.tickets == db.tickets + [t];
    }
  }

  /** The code puts no lower bound on the request: booking -1 seats on a train
      with every seat free gives it more available seats than it has in total. */
  lemma NegativeRequestOverfillsTrain()
    ensures var db := Db(map[0 := Route("A", "B")], map[0 := Train("T", 0, 10, 10)], [], 1, 1, 0);
            && Consistent(db) && SeatsBounded(db)
            && var db' := BookStep(db, 0, "P", DefaultCategory, -1).0;
               db'.trains[0].availableseats == 11 && db'.trains[0].totalseats == 10
  {
    var db := Db(map[0 := Route("A", "B")], map[0 := Train("T", 0, 10, 10)], [], 1, 1, 0);
    assert Balanced(db, 0);
  }

  // ---------------------------------------------------------------------------
  // increase_seats, and the increase_seats action of admin_panel

  /** Adds `extra` seats to a train; the reply is the updated train. */
  function IncreaseStep(db: Db, trainid: TrainId, extra: int): (r: (Db, Result<Train>))
    ensures trainid !in db.trains ==> r == (db, Failure(TrainNotFound))
    ensures trainid in db.trains ==>
              var (db', reply) := r;
              var old_ := db.trains[trainid];
              && reply.Success? && db'.trains == db.trains[trainid := reply.value]
              && reply.value.availableseats == old_.availableseats + extra
              && reply.value.totalseats == old_.totalseats + extra
              && reply.value.totalseats - reply.value.availableseats == old_.totalseats - old_.availableseats
              && reply.value.trainname == old_.trainname && reply.value.route == old_.route
              && db'.tickets == db.tickets && db'.routes == db.routes && db'.clock == db.clock
              && db'.nextRouteId == db.nextRouteId && db'.nextTrainId == db.nextTrainId
  {
    if trainid !in db.trains then (db, Failure(TrainNotFound))
    else
      var train := db.trains[trainid];
      var train' := train.(availableseats := train.availableseats + extra,
                           totalseats := train.totalseats + extra);
      (db.(trains := db.trains[trainid := train']), Success(train'))
  }

  lemma IncreasePreservesConsistency(db: Db, trainid: TrainId, extra: int)
    requires Consistent(db)
    ensures Consistent(IncreaseStep(db, trainid, extra).0)
  {
    var db' := IncreaseStep(db, trainid, extra).0;
    forall id | id in db'.trains ensures Balanced(db', id) {
      assert Balanced(db, id);
    }
  }

  /** With a non-negative increase, seat counts stay in range. */
  lemma IncreasePreservesBounds(db: Db, trainid: TrainId, extra: int)
    requires SeatsBounded(db) && extra >= 0
    ensures SeatsBounded(IncreaseStep(db, trainid, extra).0)
  {
  }

  /** The code puts no lower bound on the increase: -1 extra seats on a train with no seats
      leaves it with a negative number of available seats. */
  lemma NegativeIncreaseUnderflows()
    ensures var db := Db(map[0 := Route("A", "B")], map[0 := Train("T", 0, 0, 0)], [], 1, 1, 0);
            && Consistent(db) && SeatsBounded(db)
            && IncreaseStep(db, 0, -1).0.trains[0].availableseats == -1
  {
    var db := Db(map[0 := Route("A", "B")], map[0 := Train("T", 0, 0, 0)], [], 1, 1, 0);
    assert Balanced(db, 0);
  }

  /** A store holding one train of 10 seats with two bookings of 6 and 2 seats. */
  const TwoLeft: Db :=
    Db(map[0 := Route("A", "B")], map[0 := Train("T", 0, 10, 2)],
       [Ticket(0, "Q", DefaultCategory, 6, 6, 0, Confirmed, 0),
        Ticket(0, "Q", DefaultCategory, 2, 2, 0, Confirmed, 1)], 1, 1, 2)

  lemma TwoLeftTables()
    ensures FreshIds(TwoLeft)
    ensures forall a, b :: a in TwoLeft.routes && b in TwoLeft.routes && TwoLeft.routes[a] == TwoLeft.routes[b] ==> a == b
    ensures forall id :: id in TwoLeft.trains ==> TwoLeft.trains[id].route in TwoLeft.routes
    ensures forall id :: id in TwoLeft.trains ==> 0 <= TwoLeft.trains[id].availableseats <= TwoLeft.trains[id].totalseats
    ensures BookedInOrder(TwoLeft.tickets)
  {
  }

  lemma TwoLeftTicketsFit()
    ensures forall t :: t in TwoLeft.tickets ==>
              && WellFormedTicket(t) && t.train in TwoLeft.trains && t.bookedat < TwoLeft.clock
              && 0 <= t.confirmedseats && 0 <= t.waitlistseats
  {
    var ts := TwoLeft.tickets;
    assert forall t :: t in ts ==> t == ts[0] || t == ts[1];
  }

  lemma TwoLeftBalanced()
    ensures forall id :: id in TwoLeft.trains ==> Balanced(TwoLeft, id)
  {
    var ts := TwoLeft.tickets;
    ConfirmedSumAppend([], ts[0], 0);
    ConfirmedSumAppend([ts[0]], ts[1], 0);
    assert [] + [ts[0]] == [ts[0]];
    assert [ts[0]] + [ts[1]] == ts;
  }

  /** The start store of the scenario below keeps the invariant. */
  lemma TwoLeftConsistent()
    ensures Consistent(TwoLeft) && SeatsBounded(TwoLeft)
  {
    TwoLeftTables();
    TwoLeftTicketsFit();
    TwoLeftBalanced();
  }

  /** With 2 of 10 seats left, book 5 more, then add 3 seats: the new booking
      keeps 2 confirmed and 3 waitlisted, since nothing promotes it. */
  lemma IncreaseDoesNotPromote()
    ensures Consistent(TwoLeft)
    ensures var (db1, reply) := BookStep(TwoLeft, 0, "P", DefaultCategory, 5);
            var db2 := IncreaseStep(db1, 0, 3).0;
            && reply == Success(Receipt(5, 2, 3, 0))
            && db2.trains[0].availableseats == 3 && db2.trains[0].totalseats == 13
            && db2.tickets == db1.tickets
            && db2.tickets[2].confirmedseats == 2 && db2.tickets[2].waitlistseats == 3
            && db2.tickets[2].status == Confirmed
  {
    TwoLeftConsistent();
    var (db1, reply) := BookStep(TwoLeft, 0, "P", DefaultCategory, 5);
    assert db1.trains[0] == Train("T", 0, 10, 0);
    assert db1.tickets[2] == Ticket(0, "P", DefaultCategory, 5, 2, 3, Confirmed, 2);
  }

  // ---------------------------------------------------------------------------
  // cancel_train, and the cancel_train action of admin_panel

  /** Deletes a train and, by cascade, its tickets; the reply is the deleted train. */
  function CancelStep(db: Db, trainid: TrainId): (r: (Db, Result<Train>))
    ensures trainid !in db.trains ==> r == (db, Failure(TrainNotFound))
    ensures trainid in db.trains ==>
              var (db', reply) := r;
              && reply == Success(db.trains[trainid])
              && db'.trains == db.trains - {trainid}
              && (forall t :: t in db'.tickets <==> t in db.tickets && t.train != trainid)
              && db'.routes == db.routes && db'.clock == db.clock
              && db'.nextRouteId == db.nextRouteId && db'.nextTrainId == db.nextTrainId
  {
    if trainid !in db.trains then (db, Failure(TrainNotFound))
    else
      (db.(trains := db.trains - {trainid}, tickets := DropTrains(db.tickets, {trainid})),
       Success(db.trains[trainid]))
  }

  lemma CancelPreservesConsistency(db: Db, trainid: TrainId)
    requires Consistent(db)
    ensures Consistent(CancelStep(db, trainid).0)
  {
    var db' := CancelStep(db, trainid).0;
    if trainid in db.trains {
      forall id | id in db'.trains ensures Balanced(db', id) {
        ConfirmedSumDropOthers(db.tickets, {trainid}, id);
        assert Balanced(db, id);
      }
    }
  }

  lemma CancelPreservesBounds(db: Db, trainid: TrainId)
    requires SeatsBounded(db)
    ensures SeatsBounded(CancelStep(db, trainid).0)
  {
  }

  // ---------------------------------------------------------------------------
  // Route.delete(): the cascade through trains to their tickets

  /** Deletes a route; its trains go with it, and their tickets with them. */
  function DeleteRouteStep(db: Db, rid: RouteId): (db': Db)
    requires rid in db.routes
    ensures db'.routes == db.routes - {rid}
    ensures forall id :: id in db'.trains <==> id in db.trains && db.trains[id].route != rid
    ensures forall id :: id in db'.trains ==> db'.trains[id] == db.trains[id]
    ensures forall t :: t in db'.tickets <==>
              t in db.tickets && !(t.train in db.trains && db.trains[t.train].route == rid)
    ensures db'.clock == db.clock && db'.nextRouteId == db.nextRouteId && db'.nextTrainId == db.nextTrainId
  {
    var gone := set id | id in db.trains && db.trains[id].route == rid;
    db.(routes := db.routes - {rid}, trains := db.trains - gone, tickets := DropTrains(db.tickets, gone))
  }

  lemma DeleteRoutePreservesConsistency(db: Db, rid: RouteId)
    requires Consistent(db) && rid in db.routes
    ensures Consistent(DeleteRouteStep(db, rid))
  {
    var db' := DeleteRouteStep(db, rid);
    var gone := set id | id in db.trains && db.trains[id].route == rid;
    forall id | id in db'.trains ensures Balanced(db', id) {
      ConfirmedSumDropOthers(db.tickets, gone, id);
      assert Balanced(db, id);
    }
  }

  lemma DeleteRoutePreservesBounds(db: Db, rid: RouteId)
    requires SeatsBounded(db) && rid in db.routes
    ensures SeatsBounded(DeleteRouteStep(db, rid))
  {
  }

  // ---------------------------------------------------------------------------
  // add_train

  /** The id of a route among ids below `below` whose cities are those of `route`. */
  function FindRoute(routes: map<RouteId, Route>, route: Route, below: nat): (r: Option<RouteId>)
    ensures r.Some? ==> r.value < below && r.value in routes && routes[r.value] == route
    ensures r.None? ==> forall rid :: rid in routes && rid < below ==> routes[rid] != route
  {
    if below == 0 then None
    else if below - 1 in routes && routes[below - 1] == route then Some(below - 1)
    else FindRoute(routes, route, below - 1)
  }

  /** The get-or-create of a route for (startcity, endcity): the existing one, or a new id. */
  function GetOrCreateRoute(db: Db, startcity: string, endcity: string): (r: (Db, RouteId))
    requires FreshIds(db)
    ensures FreshIds(r.0)
    ensures (exists rid :: rid in db.routes && db.routes[rid] == Route(startcity, endcity)) ==> r.0 == db
    ensures r.1 in r.0.routes && r.0.routes[r.1] == Route(startcity, endcity)
    ensures || (r.0.routes == db.routes && r.0.nextRouteId == db.nextRouteId)
            || (&& r.1 == db.nextRouteId && r.1 !in db.routes
                && r.0.routes == db.routes[r.1 := Route(startcity, endcity)]
                && r.0.nextRouteId == db.nextRouteId + 1)
    ensures r.0.trains == db.trains && r.0.tickets == db.tickets && r.0.clock == db.clock
    ensures r.0.nextTrainId == db.nextTrainId
  {
    var route := Route(startcity, endcity);
    match FindRoute(db.routes, route, db.nextRouteId)
    case Some(rid) => (db, rid)
    case None =>
      (db.(routes := db.routes[db.nextRouteId := route], nextRouteId := db.nextRouteId + 1), db.nextRouteId)
  }

  /** Creates a train with all its seats available on the route for the two cities. */
  function AddTrainStep(db: Db, trainname: string, startcity: string, endcity: string, totalseats: int): (r: (Db, TrainId))
    requires FreshIds(db)
    ensures var (db', id) := r;
            && id !in db.trains && id == db.nextTrainId
            && id in db'.trains && db'.trains - {id} == db.trains
            && db'.trains[id].trainname == trainname
            && db'.trains[id].totalseats == totalseats
            && db'.trains[id].availableseats == totalseats
            && db'.trains[id].route in db'.routes
            && db'.routes[db'.trains[id].route] == Route(startcity, endcity)
            && db'.nextTrainId == db.nextTrainId + 1
            && (|| (db'.routes == db.routes && db'.nextRouteId == db.nextRouteId)
                || (&& db'.trains[id].route == db.nextRouteId && db'.trains[id].route !in db.routes
                    && db'.routes == db.routes[db'.trains[id].route := Route(startcity, endcity)]
                    && db'.nextRouteId == db.nextRouteId + 1))
            && db'.tickets == db.tickets && db'.clock == db.clock
  {
    var (db1, rid) := GetOrCreateRoute(db, startcity, endcity);
    var id := db1.nextTrainId;
    (db1.(trains := db1.trains[id := Train(trainname, rid, totalseats, totalseats)],
          nextTrainId := id + 1),
     id)
  }

  /** Adding a train reuses the route of an existing train's cities rather than
      creating a second one, and there is always exactly one route per city pair. */
  lemma AddTrainReusesRoute(db: Db, trainname: string, startcity: string, endcity: string, totalseats: int)
    requires Consistent(db)
    ensures var (db', id) := AddTrainStep(db, trainname, startcity, endcity, totalseats);
            && ((exists rid :: rid in db.routes && db.routes[rid] == Route(startcity, endcity)) ==> db'.routes == db.routes)
            && (forall a, b :: a in db'.routes && b in db'.routes && db'.routes[a] == db'.routes[b] ==> a == b)
  {
    var route := Route(startcity, endcity);
    var found := FindRoute(db.routes, route, db.nextRouteId);
    if found.None? {
      forall a, b | a in db.routes + map[db.nextRouteId := route] && b in db.routes + map[db.nextRouteId := route]
        && (db.routes + map[db.nextRouteId := route])[a] == (db.routes + map[db.nextRouteId := route])[b]
        ensures a == b
      {
      }
    }
  }

  lemma AddTrainPreservesConsistency(db: Db, trainname: string, startcity: string, endcity: string, totalseats: int)
    requires Consistent(db)
    ensures Consistent(AddTrainStep(db, trainname, startcity, endcity, totalseats).0)
  {
    var (db', id) := AddTrainStep(db, trainname, startcity, endcity, totalseats);
    AddTrainReusesRoute(db, trainname, startcity, endcity, totalseats);
    forall id' | id' in db'.trains ensures Balanced(db', id') {
      if id' == id {
        ConfirmedSumUnreferenced(db.tickets, id);
      } else {
        assert Balanced(db, id');
      }
    }
  }

  /** The code puts no lower bound on the seat count of a new train: a train of
      -5 seats enters an empty store with -5 seats available. */
  lemma NegativeTotalSeatsOutOfRange()
    ensures var db' := AddTrainStep(EmptyDb, "T", "A", "B", -5).0;
            && Consistent(db') && !SeatsBounded(db')
            && db'.trains[0].availableseats == -5
  {
    EmptyDbConsistent();
    AddTrainPreservesConsistency(EmptyDb, "T", "A", "B", -5);
  }

  /** A new train with a non-negative seat count keeps the seat counts in range. */
  lemma AddTrainPreservesBounds(db: Db, trainname: string, startcity: string, endcity: string, totalseats: int)
    requires FreshIds(db) && SeatsBounded(db) && totalseats >= 0
    ensures SeatsBounded(AddTrainStep(db, trainname, startcity, endcity, totalseats).0)
  {
  }

  // ---------------------------------------------------------------------------
  // admin_panel: dispatch on the posted action

  datatype AdminAction = IncreaseSeatsAction(trainid: TrainId, extra: int) | CancelTrainAction(trainid: TrainId) | NoAction

  datatype AdminMessage = NoMessage | SeatsIncreased(trainname: string, availableseats: int) | TrainCancelled(trainname: string) | TrainNotFoundMessage

  /** The admin panel's two actions share the effect of the increase_seats and
      cancel_train views and differ only in the message they report. */
  function AdminStep(db: Db, action: AdminAction): (r: (Db, AdminMessage))
    ensures action.IncreaseSeatsAction? ==> r.0 == IncreaseStep(db, action.trainid, action.extra).0
    ensures action.CancelTrainAction? ==> r.0 == CancelStep(db, action.trainid).0
    ensures action.NoAction? ==> r == (db, NoMessage)
    ensures r.1 == TrainNotFoundMessage <==> !action.NoAction? && action.trainid !in db.trains
    ensures action.IncreaseSeatsAction? && action.trainid in db.trains ==>
              r.1 == SeatsIncreased(db.trains[action.trainid].trainname, r.0.trains[action.trainid].availableseats)
    ensures action.CancelTrainAction? && action.trainid in db.trains ==>
              r.1 == TrainCancelled(db.trains[action.trainid].trainname)
  {
    match action
    case IncreaseSeatsAction(trainid, extra) =>
      var (db', reply) := IncreaseStep(db, trainid, extra);
      (db', if reply.Success? then SeatsIncreased(reply.value.trainname, reply.value.availableseats) else TrainNotFoundMessage)
    case CancelTrainAction(trainid) =>
      var (db', reply) := CancelStep(db, trainid);
      (db', if reply.Success? then TrainCancelled(reply.value.trainname) else TrainNotFoundMessage)
    case NoAction => (db, NoMessage)
  }
}
