/**
 * `PatronManager`: the registry of patrons keyed by patron id. The map holds
 * references, so a patron found here and changed in place is changed for
 * every holder of the reference.
 */
module PatronRegistry {
  import opened Errors
  import opened Collections
  import opened Books
  import opened Patrons

  class PatronManager {
    var patrons: map<string, Patron>

    constructor ()
      ensures patrons == map[]
    {
      patrons := map[];
    }

    /**
     * `addPatron`: a null patron, or one whose id is already registered, is
     * rejected with the registry unchanged; otherwise the patron is registered
     * under its own id. The id itself is not checked for emptiness.
     */
    method AddPatron(patron: Patron?) returns (r: Outcome)
      modifies this
      ensures patron == null ==> r == Thrown(IllegalArgument) && patrons == old(patrons)
      ensures patron != null && patron.patronId in old(patrons) ==> r == Thrown(IllegalArgument) && patrons == old(patrons)
      ensures patron != null && patron.patronId !in old(patrons) ==> r == Done && patrons == old(patrons)[patron.patronId := patron]
      ensures r == Done && patron.patronId != "" ==> PatronExists(patron.patronId) && FindPatronById(patron.patronId) == Ok(patron)
    {
      if patron == null {
        return Thrown(IllegalArgument);
      }
      if patron.patronId in patrons {
        return Thrown(IllegalArgument);
      }
      patrons := patrons[patron.patronId := patron];
      return Done;
    }

    /**
     * `updatePatron`: an empty id, a null patron or an unknown id is rejected
     * with the registry unchanged; otherwise the entry under `patronId` is
     * replaced (whatever id the new patron carries) and the id set stays the same.
     */
    method UpdatePatron(patronId: string, updatedPatron: Patron?) returns (r: Outcome)
      modifies this
      ensures r == Done <==> patronId != "" && updatedPatron != null && patronId in old(patrons)
      ensures r != Done ==> r == Thrown(IllegalArgument) && patrons == old(patrons)
      ensures r == Done ==> patrons == old(patrons)[patronId := updatedPatron] && patrons.Keys == old(patrons).Keys
    {
      if patronId == "" || updatedPatron == null || patronId !in patrons {
        return Thrown(IllegalArgument);
      }
      patrons := patrons[patronId := updatedPatron];
      return Done;
    }

    /** `findPatronById`: rejects an empty id; otherwise the registered patron, or null. */
    function FindPatronById(patronId: string): (r: Result<Patron?>)
      reads this
      ensures r.Err? <==> patronId == ""
      ensures r.Err? ==> r.ex == IllegalArgument
      ensures r.Ok? ==> (r.value != null <==> patronId in patrons)
      ensures r.Ok? && r.value != null ==> r.value == patrons[patronId]
    {
      if patronId == "" then Err(IllegalArgument)
      else if patronId in patrons then Ok(patrons[patronId])
      else Ok(null)
    }

    /** `patronExists`: never throws; false for an empty id, otherwise whether the id is registered. */
    function PatronExists(patronId: string): (b: bool)
      reads this
      ensures b <==> FindPatronById(patronId).Ok? && FindPatronById(patronId).value != null
    {
      patronId != "" && patronId in patrons
    }

    /** `getAllPatrons`: one entry per registered id, in the map's iteration order `ids`. */
    method GetAllPatrons() returns (all: seq<Patron>, ghost ids: seq<string>)
      ensures |all| == |ids| == |patrons|
      ensures NoDuplicates(ids) && forall id :: id in ids <==> id in patrons
      ensures forall i :: 0 <= i < |ids| ==> ids[i] in patrons && all[i] == patrons[ids[i]]
    {
      all, ids := Values(patrons);
    }

    /**
     * `addToBorrowingHistory`: an empty id, a null book or an unknown patron is
     * rejected with no patron changed; otherwise the registered patron's
     * history gets the book unless an equal one is there. No other patron
     * object changes.
     */
    method AddToBorrowingHistory(patronId: string, book: Option<Book>) returns (r: Outcome)
      modifies patrons.Values
      ensures r == Done <==> patronId != "" && book.Some? && patronId in patrons
      ensures r != Done ==> r == Thrown(IllegalArgument) && unchanged(patrons.Values)
      ensures r == Done ==> patrons[patronId].borrowingHistory == AddIfAbsent(old(patrons[patronId].borrowingHistory), book.value)
      ensures r == Done ==> patrons[patronId].name == old(patrons[patronId].name) && patrons[patronId].email == old(patrons[patronId].email)
                            && patrons[patronId].phoneNumber == old(patrons[patronId].phoneNumber)
      ensures r == Done ==> forall p :: p in patrons.Values && p != patrons[patronId] ==> unchanged(p)
    {
      if patronId == "" || book.None? {
        return Thrown(IllegalArgument);
      }
      var found := FindPatronById(patronId);
      var patron := found.value;
      if patron == null {
        return Thrown(IllegalArgument);
      }
      patron.AddToBorrowingHistory(book.value);
      return Done;
    }
  }
}
