/** The read-only queries of the views: booking history and train search. */
module Queries {
  import opened Models
  import opened Text
  import opened Ledger

  /** Newest ticket first. */
  ghost predicate NewestFirst(tickets: seq<Ticket>)
  {
    forall i, j :: 0 <= i < j < |tickets| ==> tickets[i].bookedat > tickets[j].bookedat
  }

  /** The history filter: an empty filter keeps every ticket, any other keeps the
      tickets whose passenger name contains it, ignoring case. */
  ghost predicate NameMatches(t: Ticket, passenger: string)
  {
    ContainsIgnoringCase(t.passengername, passenger)
  }

  /** booking_history: the tickets that match the passenger filter, newest first.
      The table is in creation order, so walking it from the end orders by
      creation time descending. */
  function History(tickets: seq<Ticket>, passenger: string): (r: seq<Ticket>)
    ensures |r| <= |tickets|
    ensures forall t :: t in r <==> t in tickets && NameMatches(t, passenger)
    ensures BookedInOrder(tickets) ==> NewestFirst(r)
  {
    if |tickets| == 0 then []
    else
      var last := tickets[|tickets| - 1];
      var older := History(tickets[..|tickets| - 1], passenger);
      assert forall t :: t in tickets <==> t in tickets[..|tickets| - 1] || t == last by {
        assert tickets == tickets[..|tickets| - 1] + [last];
      }
      if passenger == "" || IContains(last.passengername, passenger) then
        EmptyFilterMatchesAll(last.passengername);
        assert BookedInOrder(tickets) ==> NewestFirst([last] + older) by {
          if BookedInOrder(tickets) { OlderAfter(tickets, older); }
        }
        [last] + older
      else
        older
  }

  /** In an ordered table, tickets drawn from all but the last row all come after that row, newest first. */
  lemma OlderAfter(tickets: seq<Ticket>, older: seq<Ticket>)
    requires |tickets| > 0 && BookedInOrder(tickets)
    requires NewestFirst(older)
    requires forall t :: t in older ==> t in tickets[..|tickets| - 1]
    ensures NewestFirst([tickets[|tickets| - 1]] + older)
  {
    var r := [tickets[|tickets| - 1]] + older;
    forall i, j | 0 <= i < j < |r| ensures r[i].bookedat > r[j].bookedat {
      assert r[j] == older[j - 1] && older[j - 1] in older;
      if i == 0 {
        var k :| 0 <= k < |tickets| - 1 && tickets[k] == r[j];
        assert tickets[k].bookedat < tickets[|tickets| - 1].bookedat;
      } else {
        assert r[i] == older[i - 1];
      }
    }
  }

  /** An empty filter returns the whole table. */
  lemma HistoryUnfiltered(tickets: seq<Ticket>)
    ensures forall t :: t in History(tickets, "") <==> t in tickets
  {
    forall t ensures NameMatches(t, "") {
      EmptyFilterMatchesAll(t.passengername);
    }
  }

  /** After a train is cancelled, the history no longer lists any of its tickets,
      and still lists every other matching ticket. */
  lemma CancelledTrainLeavesHistory(db: Db, trainid: TrainId, passenger: string)
    requires Consistent(db)
    ensures forall t :: t in History(CancelStep(db, trainid).0.tickets, passenger) <==>
              t in History(db.tickets, passenger) && t.train != trainid
  {
  }

  /** search_trains: the trains whose route's start or end city contains the
      query, ignoring case; an empty query finds nothing. */
  function Search(routes: map<RouteId, Route>, trains: map<TrainId, Train>, query: string): (r: set<TrainId>)
    ensures forall id :: id in r <==>
              && query != ""
              && id in trains && trains[id].route in routes
              && (ContainsIgnoringCase(routes[trains[id].route].startcity, query)
                  || ContainsIgnoringCase(routes[trains[id].route].endcity, query))
  {
    if query == "" then {}
    else
      set id | id in trains && trains[id].route in routes
                && (IContains(routes[trains[id].route].startcity, query)
                    || IContains(routes[trains[id].route].endcity, query))
  }

  /** In a consistent store every train is on a route, so search is decided by
      the cities alone; it changes nothing, being a function of the tables. */
  lemma SearchFindsByCity(db: Db, id: TrainId, query: string)
    requires Consistent(db) && id in db.trains && query != ""
    ensures id in Search(db.routes, db.trains, query) <==>
              var route := db.routes[db.trains[id].route];
              ContainsIgnoringCase(route.startcity, query) || ContainsIgnoringCase(route.endcity, query)
  {
  }
}
