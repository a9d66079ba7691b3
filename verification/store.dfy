/** The views of tickets/views.py that change the store, as methods that update
    the tables in place. Each method is proved to have exactly the effect of its
    transition function in module Ledger, and so to keep the store consistent. */
module Store {
  import opened Models
  import opened Ledger

  class TicketStore {
    var routes: map<RouteId, Route>
    var trains: map<TrainId, Train>
    var tickets: seq<Ticket>
    var nextRouteId: nat
    var nextTrainId: nat
    var clock: nat

    /** The tables as one value. */
    function State(): Db
      reads this
    {
      Db(routes, trains, tickets, nextRouteId, nextTrainId, clock)
    }

    ghost predicate Valid()
      reads this
    {
      Consistent(State())
    }

    constructor ()
      ensures Valid() && SeatsBounded(State())
      ensures State() == EmptyDb
    {
      routes, trains, tickets := map[], map[], [];
      nextRouteId, nextTrainId, clock := 0, 0, 0;
      EmptyDbConsistent();
    }

    /** book_ticket: splits the request against the train's available seats,
        updates the train and records one ticket. */
    method BookTicket(trainid: TrainId, passenger: string, category: string, seats: int) returns (r: Result<Receipt>)
      requires Valid()
      modifies this
      ensures Valid()
      ensures (State(), r) == BookStep(old(State()), trainid, passenger, category, seats)
      ensures old(SeatsBounded(State())) && seats >= 0 ==> SeatsBounded(State())
    {
      ghost var db := State();
      if trainid !in trains {
        return Failure(TrainNotFound);
      }
      var train := trains[trainid];
      if seats > MaxSeatsPerBooking {
        return Failure(TooManySeats);
      }
      var available := train.availableseats;
      var confirmed, waitlist, status;
      if seats <= available {
        confirmed := seats;
        waitlist := 0;
        train := train.(availableseats := train.availableseats - seats);
        status := Confirmed;
      } else {
        confirmed := available;
        waitlist := seats - available;
        train := train.(availableseats := 0);
        status := if confirmed == 0 then Waitlist else Confirmed;
      }
      assert Allocate(seats, available) == Allocation(confirmed, waitlist, train.availableseats, status);
      trains := trains[trainid := train];
      tickets := tickets + [Ticket(trainid, passenger, category, seats, confirmed, waitlist, status, clock)];
      clock := clock + 1;
      r := Success(Receipt(seats, confirmed, waitlist, train.availableseats));
      assert (State(), r) == BookStep(db, trainid, passenger, category, seats);
      BookPreservesConsistency(db, trainid, passenger, category, seats);
      if SeatsBounded(db) && seats >= 0 {
        BookPreservesBounds(db, trainid, passenger, category, seats);
      }
    }

    /** increase_seats, and the increase_seats action of the admin panel: adds
        `extra` to both seat counts of the train. */
    method IncreaseSeats(trainid: TrainId, extra: int) returns (r: Result<Train>)
      requires Valid()
      modifies this
      ensures Valid()
      ensures (State(), r) == IncreaseStep(old(State()), trainid, extra)
      ensures old(SeatsBounded(State())) && extra >= 0 ==> SeatsBounded(State())
    {
      ghost var db := State();
      if trainid !in trains {
        return Failure(TrainNotFound);
      }
      var train := trains[trainid];
      train := train.(availableseats := train.availableseats + extra);
      train := train.(totalseats := train.totalseats + extra);
      trains := trains[trainid := train];
      r := Success(train);
      assert (State(), r) == IncreaseStep(db, trainid, extra);
      IncreasePreservesConsistency(db, trainid, extra);
      if SeatsBounded(db) && extra >= 0 {
        IncreasePreservesBounds(db, trainid, extra);
      }
    }

    /** cancel_train, and the cancel_train action of the admin panel: deletes the
        train, and its tickets by cascade. */
    method CancelTrain(trainid: TrainId) returns (r: Result<Train>)
      requires Valid()
      modifies this
      ensures Valid()
      ensures (State(), r) == CancelStep(old(State()), trainid)
      ensures old(SeatsBounded(State())) ==> SeatsBounded(State())
    {
      ghost var db := State();
      if trainid !in trains {
        return Failure(TrainNotFound);
      }
      var train := trains[trainid];
      trains := trains - {trainid};
      tickets := DropTrains(tickets, {trainid});
      r := Success(train);
      assert (State(), r) == CancelStep(db, trainid);
      CancelPreservesConsistency(db, trainid);
      if SeatsBounded(db) {
        CancelPreservesBounds(db, trainid);
      }
    }

    /** add_train: gets or creates the route for the two cities and creates a
        train on it with every seat available. */
    method AddTrain(trainname: string, startcity: string, endcity: string, totalseats: int) returns (id: TrainId)
      requires Valid()
      modifies this
      ensures Valid()
      ensures (State(), id) == AddTrainStep(old(State()), trainname, startcity, endcity, totalseats)
      ensures old(SeatsBounded(State())) && totalseats >= 0 ==> SeatsBounded(State())
    {
      ghost var db := State();
      var route := Route(startcity, endcity);
      var found := FindRoute(routes, route, nextRouteId);
      var rid;
      if found.Some? {
        rid := found.value;
      } else {
        rid := nextRouteId;
        routes := routes[rid := route];
        nextRouteId := nextRouteId + 1;
      }
      id := nextTrainId;
      trains := trains[id := Train(trainname, rid, totalseats, totalseats)];
      nextTrainId := nextTrainId + 1;
      assert (State(), id) == AddTrainStep(db, trainname, startcity, endcity, totalseats);
      AddTrainPreservesConsistency(db, trainname, startcity, endcity, totalseats);
      if SeatsBounded(db) && totalseats >= 0 {
        AddTrainPreservesBounds(db, trainname, startcity, endcity, totalseats);
      }
    }

    /** Deleting a route: its trains are deleted by cascade, and their tickets with them. */
    method DeleteRoute(rid: RouteId)
      requires Valid() && rid in routes
      modifies this
      ensures Valid()
      ensures State() == DeleteRouteStep(old(State()), rid)
      ensures old(SeatsBounded(State())) ==> SeatsBounded(State())
    {
      ghost var db := State();
      var gone := set id | id in trains && trains[id].route == rid;
      trains := trains - gone;
      tickets := DropTrains(tickets, gone);
      routes := routes - {rid};
      assert State() == DeleteRouteStep(db, rid);
      DeleteRoutePreservesConsistency(db, rid);
      if SeatsBounded(db) {
        DeleteRoutePreservesBounds(db, rid);
      }
    }

    /** admin_panel: performs the posted action and reports what happened. */
    method AdminPanel(action: AdminAction) returns (message: AdminMessage)
      requires Valid()
      modifies this
      ensures Valid()
      ensures (State(), message) == AdminStep(old(State()), action)
    {
      match action
      case IncreaseSeatsAction(trainid, extra) =>
        var r := IncreaseSeats(trainid, extra);
        message := if r.Success? then SeatsIncreased(r.value.trainname, r.value.availableseats) else TrainNotFoundMessage;
      case CancelTrainAction(trainid) =>
        var r := CancelTrain(trainid);
        message := if r.Success? then TrainCancelled(r.value.trainname) else TrainNotFoundMessage;
      case NoAction =>
        message := NoMessage;
    }
  }
}
