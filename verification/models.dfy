/** The records of the ticket application: routes, trains and the tickets booked
    against them, with their choice lists, defaults, string renderings and the
    cascade-on-delete ownership of tickets by trains. */
module Models {

  datatype Option<T> = None | Some(value: T)

  /** Database ids. The store hands them out from counters, so they are never reused. */
  type RouteId = nat
  type TrainId = nat

  /** The category choices of a ticket. A ticket stores the code string of its category. */
  datatype Category = All | Ladies | Senior {
    function Code(): string {
      match this
      case All => "ALL"
      case Ladies => "LADIES"
      case Senior => "SENIOR"
    }
  }

  /** The category stored when none is given. */
  const DefaultCategory: string := "ALL"

  /** Reads a stored category code back: exactly the three codes are choices. */
  function ParseCategory(code: string): (c: Option<Category>)
    ensures c.Some? ==> c.value.Code() == code
    ensures c.None? ==> forall k: Category :: k.Code() != code
  {
    if code == "ALL" then Some(All)
    else if code == "LADIES" then Some(Ladies)
    else if code == "SENIOR" then Some(Senior)
    else None
  }

  /** The status choices of a ticket. */
  datatype Status = Confirmed | Waitlist {
    function Code(): string {
      match this
      case Confirmed => "CONFIRMED"
      case Waitlist => "WAITLIST"
    }
  }

  /** The status stored when none is given. */
  const DefaultStatus: Status := Confirmed

  /** Reads a stored status code back: exactly the two codes are choices. */
  function ParseStatus(code: string): (s: Option<Status>)
    ensures s.Some? ==> s.value.Code() == code
    ensures s.None? ==> forall k: Status :: k.Code() != code
  {
    if code == "CONFIRMED" then Some(Confirmed)
    else if code == "WAITLIST" then Some(Waitlist)
    else None
  }

  /** Every category has a distinct code and reads back from it; the default is ALL. */
  lemma CategoryCodesRoundTrip(c: Category)
    ensures ParseCategory(c.Code()) == Some(c)
    ensures ParseCategory(DefaultCategory) == Some(All)
  {
  }

  /** Every status has a distinct code and reads back from it; the default is CONFIRMED. */
  lemma StatusCodesRoundTrip(s: Status)
    ensures ParseStatus(s.Code()) == Some(s)
    ensures ParseStatus(DefaultStatus.Code()) == Some(Confirmed)
  {
  }

  datatype Route = Route(startcity: string, endcity: string)

  /** A route renders as its start city, " to ", and its end city. */
  function RouteLabel(r: Route): (s: string)
    ensures |s| == |r.startcity| + 4 + |r.endcity|
    ensures s[..|r.startcity|] == r.startcity
    ensures s[|r.startcity|..|r.startcity| + 4] == " to "
    ensures s[|r.startcity| + 4..] == r.endcity
  {
    r.startcity + " to " + r.endcity
  }

  /** A train owns its route by reference; deleting the route deletes the train. */
  datatype Train = Train(trainname: string, route: RouteId, totalseats: int, availableseats: int)

  /** A train renders as its name, a space, and its route. */
  function TrainLabel(t: Train, route: Route): (s: string)
    ensures |s| == |t.trainname| + 1 + |RouteLabel(route)|
    ensures s[..|t.trainname|] == t.trainname && s[|t.trainname|] == ' '
    ensures s[|t.trainname| + 1..] == RouteLabel(route)
  {
    t.trainname + " " + RouteLabel(route)
  }

  /** A ticket row. `bookedat` is the value of the store's booking counter at
      creation, standing for the creation timestamp. */
  datatype Ticket = Ticket(
    train: TrainId,
    passengername: string,
    category: string,
    seatsbooked: int,
    confirmedseats: int,
    waitlistseats: int,
    status: Status,
    bookedat: nat)

  /** A ticket created with only its required fields: the others take their defaults. */
  function DefaultTicket(train: TrainId, passengername: string, seatsbooked: int, bookedat: nat): (t: Ticket)
    ensures t.train == train && t.passengername == passengername
    ensures t.seatsbooked == seatsbooked && t.bookedat == bookedat
    ensures ParseCategory(t.category) == Some(All)
    ensures t.confirmedseats == 0 && t.waitlistseats == 0
    ensures t.status == Confirmed
  {
    Ticket(train, passengername, DefaultCategory, seatsbooked, 0, 0, DefaultStatus, bookedat)
  }

  /** A ticket renders as passenger name, train name and status code, separated by " - ". */
  function TicketLabel(t: Ticket, trainname: string): (s: string)
    ensures |s| == |t.passengername| + 3 + |trainname| + 3 + |t.status.Code()|
    ensures s[..|t.passengername|] == t.passengername
    ensures s[|t.passengername|..|t.passengername| + 3] == " - "
    ensures s[|t.passengername| + 3..|t.passengername| + 3 + |trainname|] == trainname
    ensures s[|t.passengername| + 3 + |trainname|..|t.passengername| + 6 + |trainname|] == " - "
    ensures s[|s| - |t.status.Code()|..] == t.status.Code()
  {
    t.passengername + " - " + trainname + " - " + t.status.Code()
  }

  /** Sum of confirmed seats over the tickets that reference `train`. */
  function ConfirmedSum(tickets: seq<Ticket>, train: TrainId): int
  {
    if |tickets| == 0 then 0
    else
      var last := tickets[|tickets| - 1];
      ConfirmedSum(tickets[..|tickets| - 1], train) + (if last.train == train then last.confirmedseats else 0)
  }

  /** Tickets strictly ordered by creation. */
  ghost predicate BookedInOrder(tickets: seq<Ticket>)
  {
    forall i, j :: 0 <= i < j < |tickets| ==> tickets[i].bookedat < tickets[j].bookedat
  }

  /** The ticket table after the trains in `gone` are deleted: on_delete=CASCADE
      removes exactly the tickets that reference them and keeps the rest in order. */
  function DropTrains(tickets: seq<Ticket>, gone: set<TrainId>): (r: seq<Ticket>)
    ensures |r| <= |tickets|
    ensures forall t :: t in r <==> t in tickets && t.train !in gone
    ensures BookedInOrder(tickets) ==> BookedInOrder(r)
  {
    if |tickets| == 0 then []
    else
      var last := tickets[|tickets| - 1];
      var kept := DropTrains(tickets[..|tickets| - 1], gone);
      assert forall t :: t in tickets <==> t in tickets[..|tickets| - 1] || t == last by {
        assert tickets == tickets[..|tickets| - 1] + [last];
      }
      if last.train in gone then kept
      else
        assert BookedInOrder(tickets) ==> BookedInOrder(kept + [last]) by {
          if BookedInOrder(tickets) {
            BookedBefore(tickets, kept);
          }
        }
        kept + [last]
  }

  /** In an ordered table, every ticket drawn from the table minus its last row is older than that row. */
  lemma BookedBefore(tickets: seq<Ticket>, kept: seq<Ticket>)
    requires |tickets| > 0 && BookedInOrder(tickets)
    requires BookedInOrder(kept)
    requires forall t :: t in kept ==> t in tickets[..|tickets| - 1]
    ensures BookedInOrder(kept + [tickets[|tickets| - 1]])
  {
    var last := tickets[|tickets| - 1];
    var r := kept + [last];
    forall i, j | 0 <= i < j < |r| ensures r[i].bookedat < r[j].bookedat {
      if j == |r| - 1 {
        assert r[i] == kept[i] && kept[i] in kept;
        var k :| 0 <= k < |tickets| - 1 && tickets[k] == r[i];
        assert tickets[k].bookedat < tickets[|tickets| - 1].bookedat;
      } else {
        assert r[i] == kept[i] && r[j] == kept[j];
      }
    }
  }

  /** Appending a ticket adds its confirmed seats to its own train's sum only. */
  lemma ConfirmedSumAppend(tickets: seq<Ticket>, t: Ticket, train: TrainId)
    ensures ConfirmedSum(tickets + [t], train)
         == ConfirmedSum(tickets, train) + (if t.train == train then t.confirmedseats else 0)
  {
    assert (tickets + [t])[..|tickets|] == tickets;
  }

  /** A train that no ticket references has no confirmed seats. */
  lemma {:induction false} ConfirmedSumUnreferenced(tickets: seq<Ticket>, train: TrainId)
    requires forall t :: t in tickets ==> t.train != train
    ensures ConfirmedSum(tickets, train) == 0
  {
    if |tickets| > 0 {
      var prefix := tickets[..|tickets| - 1];
      assert forall t :: t in prefix ==> t in tickets;
      ConfirmedSumUnreferenced(prefix, train);
      assert tickets[|tickets| - 1] in tickets;
    }
  }

  /** Cascading the deletion of other trains leaves a surviving train's sum unchanged. */
  lemma {:induction false} ConfirmedSumDropOthers(tickets: seq<Ticket>, gone: set<TrainId>, train: TrainId)
    requires train !in gone
    ensures ConfirmedSum(DropTrains(tickets, gone), train) == ConfirmedSum(tickets, train)
  {
    if |tickets| > 0 {
      var prefix := tickets[..|tickets| - 1];
      var last := tickets[|tickets| - 1];
      ConfirmedSumDropOthers(prefix, gone, train);
      if last.train !in gone {
        ConfirmedSumAppend(DropTrains(prefix, gone), last, train);
      }
    }
  }
}
