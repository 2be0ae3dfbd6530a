/**
 * `ReservationSystem`: per ISBN, an ordered waitlist of patrons and a parallel
 * list of the observers that will tell them the book is available. A
 * notification is recorded as a `Notice` appended to a ghost trace; nothing
 * else of the observer's delivery (logging, printing) is modelled.
 */
module Reservations {
  import opened Errors
  import opened Patrons

  /** `PatronNotificationObserver`: an observer created for one patron. */
  datatype Observer = PatronObserver(patron: Patron)

  /** One `update(message)` call made on the observer of `recipient`. */
  datatype Notice = Notice(recipient: Patron, message: string)

  /** The message `notifyBookAvailable` sends to every observer. */
  const AvailableMessage: string := "The book you reserved is now available!"

  /** The two maps of the reservation system as a value. */
  datatype Waitlist = Waitlist(reservations: map<string, seq<Patron>>, observers: map<string, seq<Observer>>)

  /** What `reserveBook` leaves behind: the new waitlist and the boolean returned. */
  datatype Booking = Booking(waitlist: Waitlist, ok: bool)

  /** The ISBN's waitlist, or none when it has no entry. */
  function QueueOf(w: Waitlist, isbn: string): seq<Patron> {
    if isbn in w.reservations then w.reservations[isbn] else []
  }

  /** The ISBN's observers, or none when it has no entry. */
  function ObserversOf(w: Waitlist, isbn: string): seq<Observer> {
    if isbn in w.observers then w.observers[isbn] else []
  }

  /** `List.contains(patron)` on a waitlist: some entry is equal to the patron, that is, has its id. */
  function HasReservation(queue: seq<Patron>, patron: Patron): (waiting: bool)
    ensures waiting <==> exists i :: 0 <= i < |queue| && queue[i].patronId == patron.patronId
  {
    exists i :: 0 <= i < |queue| && patron.Equals(queue[i])
  }

  /** No two entries of a waitlist are the same patron (by id). */
  ghost predicate DistinctIds(queue: seq<Patron>) {
    forall i, j :: 0 <= i < j < |queue| ==> queue[i].patronId != queue[j].patronId
  }

  /**
   * What every reachable waitlist satisfies: both maps have the same ISBNs,
   * the observer list of an ISBN is position by position the observer of its
   * waitlist entry, and no patron waits twice for one ISBN.
   */
  ghost predicate WellFormed(w: Waitlist) {
    && w.reservations.Keys == w.observers.Keys
    && (forall isbn :: isbn in w.reservations ==>
          && |w.observers[isbn]| == |w.reservations[isbn]|
          && (forall i :: 0 <= i < |w.reservations[isbn]| ==> w.observers[isbn][i] == PatronObserver(w.reservations[isbn][i]))
          && DistinctIds(w.reservations[isbn]))
  }

  /**
   * `reserveBook`: an empty ISBN or a null patron throws. Otherwise the answer
   * is true exactly when no patron with the same id is waiting; then the
   * patron joins the tail of the waitlist and one observer joins the observer
   * list. A false answer changes nothing. No other ISBN is touched.
   */
  function Reserve(w: Waitlist, isbn: string, patron: Patron?): (r: Result<Booking>)
    ensures r.Err? <==> isbn == "" || patron == null
    ensures r.Err? ==> r.ex == IllegalArgument
    ensures r.Ok? ==> (r.value.ok <==> !HasReservation(QueueOf(w, isbn), patron))
    ensures r.Ok? && !r.value.ok ==> r.value.waitlist == w
    ensures r.Ok? && r.value.ok ==> QueueOf(r.value.waitlist, isbn) == QueueOf(w, isbn) + [patron]
    ensures r.Ok? && r.value.ok ==> ObserversOf(r.value.waitlist, isbn) == ObserversOf(w, isbn) + [PatronObserver(patron)]
    ensures r.Ok? ==> forall i :: i != isbn ==> QueueOf(r.value.waitlist, i) == QueueOf(w, i) && ObserversOf(r.value.waitlist, i) == ObserversOf(w, i)
  {
    if isbn == "" || patron == null then Err(IllegalArgument)
    else
      var p: Patron := patron;
      var queue := QueueOf(w, isbn);
      if HasReservation(queue, p) then Ok(Booking(w, false))
      else Ok(Booking(Waitlist(w.reservations[isbn := queue + [p]], w.observers[isbn := ObserversOf(w, isbn) + [PatronObserver(p)]]), true))
  }

  /** One notice per observer, in list order, each carrying the availability message. */
  function Deliveries(observers: seq<Observer>): (r: seq<Notice>)
    ensures |r| == |observers|
    ensures forall i :: 0 <= i < |r| ==> r[i] == Notice(observers[i].patron, AvailableMessage)
  {
    if observers == [] then []
    else Deliveries(observers[..|observers| - 1]) + [Notice(observers[|observers| - 1].patron, AvailableMessage)]
  }

  /** The notices `notifyBookAvailable` sends: none for an empty or unwatched ISBN. */
  function Sent(w: Waitlist, isbn: string): (r: seq<Notice>)
    ensures isbn == "" ==> r == []
    ensures isbn != "" ==> r == Deliveries(ObserversOf(w, isbn))
  {
    if isbn == "" then [] else Deliveries(ObserversOf(w, isbn))
  }

  /**
   * `notifyBookAvailable`: an empty ISBN throws; an ISBN with no observers is
   * left as it is; otherwise, after the notices, the ISBN's entries go from
   * both maps. Every other ISBN keeps its entries.
   */
  function Notify(w: Waitlist, isbn: string): (r: Result<Waitlist>)
    ensures r.Err? <==> isbn == ""
    ensures r.Err? ==> r.ex == IllegalArgument
    ensures r.Ok? && ObserversOf(w, isbn) == [] ==> r.value == w
    ensures r.Ok? && ObserversOf(w, isbn) != [] ==>
              isbn !in r.value.reservations && isbn !in r.value.observers
    ensures r.Ok? ==> forall i :: i != isbn ==> QueueOf(r.value, i) == QueueOf(w, i) && ObserversOf(r.value, i) == ObserversOf(w, i)
  {
    if isbn == "" then Err(IllegalArgument)
    else if ObserversOf(w, isbn) == [] then Ok(w)
    else Ok(Waitlist(w.reservations - {isbn}, w.observers - {isbn}))
  }

  /** `isBookReserved`: a non-empty ISBN with somebody waiting. */
  function IsReserved(w: Waitlist, isbn: string): (reserved: bool)
    ensures reserved ==> isbn != "" && isbn in w.reservations && |w.reservations[isbn]| > 0
    ensures isbn == "" || isbn !in w.reservations ==> !reserved
  {
    isbn != "" && QueueOf(w, isbn) != []
  }

  /** `getReservationCount`: the waitlist's length; 0 for an empty ISBN. It is positive exactly when the book is reserved. */
  function Count(w: Waitlist, isbn: string): (n: nat)
    ensures isbn == "" ==> n == 0
    ensures isbn != "" ==> n == |QueueOf(w, isbn)|
    ensures n > 0 <==> IsReserved(w, isbn)
  {
    if isbn == "" then 0 else |QueueOf(w, isbn)|
  }

  /** Reserving and notifying keep the waitlist well formed; in particular no patron ever waits twice. */
  lemma OperationsKeepWellFormed(w: Waitlist, isbn: string, patron: Patron?)
    requires WellFormed(w)
    ensures Reserve(w, isbn, patron).Ok? ==> WellFormed(Reserve(w, isbn, patron).value.waitlist)
    ensures Notify(w, isbn).Ok? ==> WellFormed(Notify(w, isbn).value)
  {
    if Reserve(w, isbn, patron).Ok? && Reserve(w, isbn, patron).value.ok {
      var r := Reserve(w, isbn, patron).value.waitlist;
      var queue := QueueOf(w, isbn);
      assert r.reservations[isbn] == queue + [patron];
      forall i | 0 <= i < |queue|
        ensures queue[i].patronId != patron.patronId
      {
        assert !patron.Equals(queue[i]);
      }
    }
  }

  /** A successful reservation raises the count by one; a refused one leaves it. */
  lemma ReserveCounts(w: Waitlist, isbn: string, patron: Patron)
    requires isbn != ""
    ensures Count(Reserve(w, isbn, patron).value.waitlist, isbn) ==
            Count(w, isbn) + (if Reserve(w, isbn, patron).value.ok then 1 else 0)
    ensures IsReserved(Reserve(w, isbn, patron).value.waitlist, isbn)
  {
    if !Reserve(w, isbn, patron).value.ok {
      var i :| 0 <= i < |QueueOf(w, isbn)| && patron.Equals(QueueOf(w, isbn)[i]);
    }
  }

  /**
   * On a well-formed waitlist, notifying sends the message to every waiting
   * patron once, in the order they reserved, and leaves the book unreserved.
   */
  lemma NotifyFansOut(w: Waitlist, isbn: string)
    requires WellFormed(w) && isbn != ""
    ensures |Sent(w, isbn)| == Count(w, isbn)
    ensures forall i :: 0 <= i < |Sent(w, isbn)| ==> Sent(w, isbn)[i] == Notice(QueueOf(w, isbn)[i], AvailableMessage)
    ensures Count(Notify(w, isbn).value, isbn) == 0 && !IsReserved(Notify(w, isbn).value, isbn)
  {
  }

  class ReservationSystem {
    var reservations: map<string, seq<Patron>>
    var notificationObservers: map<string, seq<Observer>>
    /** Every `update` call made on an observer so far, in order. */
    ghost var delivered: seq<Notice>

    function State(): Waitlist
      reads this
    {
      Waitlist(reservations, notificationObservers)
    }

    ghost predicate Valid()
      reads this
    {
      WellFormed(State())
    }

    constructor ()
      ensures State() == Waitlist(map[], map[]) && delivered == []
      ensures Valid()
    {
      reservations := map[];
      notificationObservers := map[];
      delivered := [];
    }

    /** `reserveBook`: the answer and the new maps are those of `Reserve`; nobody is notified. */
    method ReserveBook(isbn: string, patron: Patron?) returns (r: Result<bool>)
      requires Valid()
      modifies this
      ensures Valid() && delivered == old(delivered)
      ensures Reserve(old(State()), isbn, patron).Err? ==> r == Err(IllegalArgument) && State() == old(State())
      ensures Reserve(old(State()), isbn, patron).Ok? ==>
                r == Ok(Reserve(old(State()), isbn, patron).value.ok) &&
                State() == Reserve(old(State()), isbn, patron).value.waitlist
    {
      OperationsKeepWellFormed(State(), isbn, patron);
      if isbn == "" || patron == null {
        return Err(IllegalArgument);
      }
      var p: Patron := patron;
      var queue := if isbn in reservations then reservations[isbn] else [];
      if HasReservation(queue, p) {
        return Ok(false);
      }
      var observers := if isbn in notificationObservers then notificationObservers[isbn] else [];
      reservations := reservations[isbn := queue + [p]];
      notificationObservers := notificationObservers[isbn := observers + [PatronObserver(p)]];
      return Ok(true);
    }

    /**
     * `notifyBookAvailable`: calls `update` with the availability message on
     * each observer of the ISBN in turn, then leaves the maps as `Notify` says.
     */
    method NotifyBookAvailable(isbn: string) returns (r: Outcome)
      requires Valid()
      modifies this
      ensures Valid()
      ensures Notify(old(State()), isbn).Err? ==> r == Thrown(IllegalArgument) && State() == old(State()) && delivered == old(delivered)
      ensures Notify(old(State()), isbn).Ok? ==>
                r == Done && State() == Notify(old(State()), isbn).value &&
                delivered == old(delivered) + Sent(old(State()), isbn)
    {
      OperationsKeepWellFormed(State(), isbn, null);
      if isbn == "" {
        return Thrown(IllegalArgument);
      }
      if isbn !in notificationObservers || notificationObservers[isbn] == [] {
        return Done;
      }
      var observers := notificationObservers[isbn];
      var i := 0;
      while i < |observers|
        invariant 0 <= i <= |observers|
        invariant State() == old(State())
        invariant delivered == old(delivered) + Deliveries(observers[..i])
      {
        assert observers[..i + 1][..i] == observers[..i];
        delivered := delivered + [Notice(observers[i].patron, AvailableMessage)];
        i := i + 1;
      }
      assert observers[..|observers|] == observers;
      reservations := reservations - {isbn};
      notificationObservers := notificationObservers - {isbn};
      return Done;
    }

    /** `isBookReserved`: somebody waits for a non-empty ISBN, so the count is positive. */
    predicate IsBookReserved(isbn: string): (b: bool)
      reads this
      ensures b <==> Count(State(), isbn) > 0
      ensures b ==> isbn != "" && isbn in reservations
    {
      IsReserved(State(), isbn)
    }

    /** `getReservationCount`: positive exactly when the book is reserved. */
    function GetReservationCount(isbn: string): (n: nat)
      reads this
      ensures n > 0 <==> IsBookReserved(isbn)
    {
      Count(State(), isbn)
    }
  }
}
