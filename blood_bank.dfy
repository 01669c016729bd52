/** The two inventory operations of the menu: receiving donated units and
    dispensing compatible units to a recipient. Every prompt is answered here
    by one token. The recipient's type is asked once, and an invalid one ends
    the operation (`UnknownRecipient`), as in the program. The other prompts
    (the donated type and units, the dispensed type and units) ask again
    until the answer is acceptable; here an unacceptable token ends the
    operation with the reason the program prints before asking again. */
module BloodBank {
  import opened Wrappers
  import opened Integers
  import opened BloodTypes
  import opened Compatibility
  import opened Inventory
  import opened Persistence

  /** Why a typed answer is refused. */
  datatype InputError =
    | UnknownBloodType   // not one of the eight codes
    | NotAWholeNumber    // `int(...)` raises `ValueError`
    | NotPositive        // zero or negative units
    | ExceedsStock       // more units than the selected type holds
    | NotOffered         // not one of the types listed as available

  /** The answer to "number of units received": a positive whole number. */
  function ReadUnitsReceived(token: string): (r: Result<int, InputError>)
    ensures r.Ok? <==> ParseInt(token).Some? && ParseInt(token).value > 0
    ensures r.Ok? ==> Some(r.value) == ParseInt(token)
    ensures r == Err(NotAWholeNumber) <==> ParseInt(token).None?
    ensures r == Err(NotPositive) <==> ParseInt(token).Some? && ParseInt(token).value <= 0
  {
    match ParseInt(token)
    case None => Err(NotAWholeNumber)
    case Some(n) => if n > 0 then Ok(n) else Err(NotPositive)
  }

  /** The answer to "number of units to dispense": a whole number from 1 to
      the units available, checked in that order. */
  function ReadDispenseQuantity(token: string, maxUnits: int): (r: Result<int, InputError>)
    ensures r.Ok? <==> ParseInt(token).Some? && 1 <= ParseInt(token).value <= maxUnits
    ensures r.Ok? ==> Some(r.value) == ParseInt(token)
    ensures r == Err(NotAWholeNumber) <==> ParseInt(token).None?
    ensures r == Err(NotPositive) <==> ParseInt(token).Some? && ParseInt(token).value <= 0
    ensures r == Err(ExceedsStock) <==> ParseInt(token).Some? && ParseInt(token).value > 0 && ParseInt(token).value > maxUnits
  {
    match ParseInt(token)
    case None => Err(NotAWholeNumber)
    case Some(q) =>
      if q <= 0 then Err(NotPositive)
      else if q <= maxUnits then Ok(q)
      else Err(ExceedsStock)
  }

  /** The answer to "blood type to dispense": one of the types listed as
      available. Any other answer, valid type or not, is refused alike. */
  function ReadSelection(token: string, available: map<BloodType, int>): (r: Result<BloodType, InputError>)
    ensures r.Ok? <==> ParseType(token).Some? && ParseType(token).value in available
    ensures r.Ok? ==> Some(r.value) == ParseType(token)
    ensures r.Err? ==> r.error == NotOffered
  {
    match ParseType(token)
    case None => Err(NotOffered)
    case Some(t) => if t in available then Ok(t) else Err(NotOffered)
  }

  /** The two answers of `add_new_units`: a valid type, asked first, and a
      positive number of units. */
  function ReadDonation(typeToken: string, unitsToken: string): (r: Result<Entry, InputError>)
    ensures r.Ok? <==> ParseType(typeToken).Some? && ReadUnitsReceived(unitsToken).Ok?
    ensures r.Ok? ==>
      && Some(r.value.bloodType) == ParseType(typeToken)
      && Some(r.value.units) == ParseInt(unitsToken) && r.value.units > 0
    ensures r.Err? ==>
      r.error == if ParseType(typeToken).None? then UnknownBloodType else ReadUnitsReceived(unitsToken).error
  {
    match ParseType(typeToken)
    case None => Err(UnknownBloodType)
    case Some(t) =>
      match ReadUnitsReceived(unitsToken)
      case Err(e) => Err(e)
      case Ok(n) => Ok(Entry(t, n))
  }

  /** Typing a positive count as `str` writes it is accepted as that count,
      and any other count is refused as not positive. */
  lemma ReadUnitsReceivedOfNumber(n: int)
    ensures ReadUnitsReceived(IntToString(n)) == if n > 0 then Ok(n) else Err(NotPositive)
  {
    ParseIntOfIntToString(n);
  }

  /** Typing a count as `str` writes it is accepted for dispensing exactly
      when it lies between 1 and the units available. */
  lemma ReadDispenseQuantityOfNumber(q: int, maxUnits: int)
    ensures ReadDispenseQuantity(IntToString(q), maxUnits) ==
      if q <= 0 then Err(NotPositive) else if q <= maxUnits then Ok(q) else Err(ExceedsStock)
  {
    ParseIntOfIntToString(q);
  }

  /** Donor type `d` is listed as available to `recipient`: it may donate to
      the recipient and has units in stock. */
  ghost predicate Offered(inventory: Dict, recipient: BloodType, d: BloodType)
  {
    recipient in Recipients(d) && Get(inventory, d) > 0
  }

  /** The search of the compatible options for stock: every option with more
      than zero units (a missing type counting as zero) is collected with its
      count, and `found` tells whether there was any. */
  method FindAvailableStock(inventory: Dict, options: seq<BloodType>)
    returns (available: map<BloodType, int>, found: bool)
    ensures forall t :: t in available <==> t in options && Get(inventory, t) > 0
    ensures forall t :: t in available ==> available[t] == Get(inventory, t)
    ensures found <==> exists i :: 0 <= i < |options| && Get(inventory, options[i]) > 0
  {
    available, found := map[], false;
    for i := 0 to |options|
      invariant forall t :: t in available <==> t in options[..i] && Get(inventory, t) > 0
      invariant forall t :: t in available ==> available[t] == Get(inventory, t)
      invariant found <==> exists k :: 0 <= k < i && Get(inventory, options[k]) > 0
    {
      var donor := options[i];
      var units := Get(inventory, donor);
      assert options[..i + 1] == options[..i] + [donor];
      if units > 0 {
        available := available[donor := units];
        found := true;
      }
    }
    assert options[..|options|] == options;
  }

  /** How a dispensing request ends. */
  datatype DispenseOutcome =
    | InventoryEmpty                        // nothing is stocked at all
    | UnknownRecipient                      // the recipient's type is not valid
    | NoCompatibleStock                     // no compatible type has units
    | SelectionRejected(reason: InputError) // the chosen type was not offered
    | QuantityRejected(reason: InputError)  // the quantity was refused
    | Dispensed(donor: BloodType, recipient: BloodType, units: int)

  /** The inventory the menu works on, with the records last written to the
      file. */
  class InventoryStore {
    var entries: Dict
    var saved: Option<seq<Row>>

    ghost predicate Valid()
      reads this
    {
      WellFormed(entries)
    }

    /** The inventory loaded at start-up, and the file written if there was
        none. */
    constructor Open(f: FileState)
      ensures Valid()
      ensures entries == LoadedInventory(f)
      ensures saved == if f.Missing? then Some(SaveRows(DefaultInventory)) else None
    {
      var inventory, written := LoadInventory(f);
      LoadedWellFormed(f);
      entries, saved := inventory, written;
    }

    /** `inventory[t] = v`, then the inventory is saved to the file, from
        which it loads back unchanged. */
    method SetCount(t: BloodType, v: int)
      requires Valid()
      modifies this
      ensures Valid()
      ensures entries == Put(old(entries), t, v)
      ensures Get(entries, t) == v
      ensures forall k :: k != t ==> Get(entries, k) == Get(old(entries), k)
      ensures NonNegative(old(entries)) && v >= 0 ==> NonNegative(entries)
      ensures saved == Some(SaveRows(entries))
      ensures LoadedInventory(Present(saved.value)) == entries
    {
      PutProperties(entries, t, v);
      entries := Put(entries, t, v);
      var rows := SaveInventory(entries);
      saved := Some(rows);
      SaveThenLoad(entries);
    }

    /** `add_new_units`: the type is asked first and then the units; the
        count of the type becomes its old count (zero if absent) plus the
        units received, nothing else changes, and the inventory is saved. */
    method Add(typeToken: string, unitsToken: string) returns (outcome: Result<int, InputError>)
      requires Valid()
      modifies this
      ensures Valid()
      ensures outcome.Err? <==> ReadDonation(typeToken, unitsToken).Err?
      ensures outcome.Err? ==>
        outcome.error == ReadDonation(typeToken, unitsToken).error && entries == old(entries) && saved == old(saved)
      ensures outcome.Ok? ==>
        var t, n := ReadDonation(typeToken, unitsToken).value.bloodType, ReadDonation(typeToken, unitsToken).value.units;
        && outcome.value == Get(old(entries), t) + n
        && entries == Put(old(entries), t, outcome.value)
        && Get(entries, t) == outcome.value
        && (forall k :: k != t ==> Get(entries, k) == Get(old(entries), k))
        && (NonNegative(old(entries)) ==> NonNegative(entries))
        && saved == Some(SaveRows(entries))
        && LoadedInventory(Present(saved.value)) == entries
    {
      var inventory := entries;
      var donation := ReadDonation(typeToken, unitsToken);
      if donation.Err? {
        return Err(donation.error);
      }
      var t, n := donation.value.bloodType, donation.value.units;
      var total := Get(inventory, t) + n;
      SetCount(t, total);
      outcome := Ok(total);
    }

    /** `check_compatible_blood`: the request is decided on the inventory as
        it stands; a dispensed request takes its units from the selected type
        and saves the inventory, and every other outcome leaves the store as
        it was. */
    method Dispense(recipientToken: string, selectedToken: string, unitsToken: string)
      returns (outcome: DispenseOutcome)
      requires Valid()
      modifies this
      ensures Valid()
      ensures DispenseDecision(old(entries), recipientToken, selectedToken, unitsToken, outcome)
      ensures !outcome.Dispensed? ==> entries == old(entries) && saved == old(saved)
      ensures outcome.Dispensed? ==>
        var d, q := outcome.donor, outcome.units;
        && 1 <= q <= Get(old(entries), d)
        && Get(entries, d) == Get(old(entries), d) - q >= 0
        && entries == Put(old(entries), d, Get(entries, d))
        && (forall k :: k != d ==> Get(entries, k) == Get(old(entries), k))
        && Keys(entries) == Keys(old(entries))
        && (NonNegative(old(entries)) ==> NonNegative(entries))
        && saved == Some(SaveRows(entries))
        && LoadedInventory(Present(saved.value)) == entries
    {
      var inventory := entries;
      outcome := DecideDispense(inventory, recipientToken, selectedToken, unitsToken);
      if outcome.Dispensed? {
        var d, q := outcome.donor, outcome.units;
        PositiveIsKey(inventory, d);
        var remaining := Get(inventory, d) - q;
        SetCount(d, remaining);
      }
    }
  }

  /** The outcome of a dispensing request on `inventory` with these answers,
      checked in the program's order: an empty inventory, then the
      recipient's type, then whether any compatible type has stock, then the
      selected type, then the quantity. */
  ghost predicate DispenseDecision(inventory: Dict, recipientToken: string, selectedToken: string,
                                   unitsToken: string, outcome: DispenseOutcome)
  {
    var recipient, selected := ParseType(recipientToken), ParseType(selectedToken);
    && (outcome == InventoryEmpty <==> inventory == [])
    && (outcome == UnknownRecipient <==> inventory != [] && recipient.None?)
    && (outcome == NoCompatibleStock <==>
          inventory != [] && recipient.Some? && forall d :: !Offered(inventory, recipient.value, d))
    && (outcome.SelectionRejected? <==>
          && inventory != [] && recipient.Some?
          && (exists d :: Offered(inventory, recipient.value, d))
          && !(selected.Some? && Offered(inventory, recipient.value, selected.value)))
    && (outcome.SelectionRejected? ==> outcome.reason == NotOffered)
    && (outcome.QuantityRejected? <==>
          && inventory != [] && recipient.Some? && selected.Some?
          && Offered(inventory, recipient.value, selected.value)
          && ReadDispenseQuantity(unitsToken, Get(inventory, selected.value)).Err?)
    && (outcome.QuantityRejected? ==>
          outcome.reason == ReadDispenseQuantity(unitsToken, Get(inventory, selected.value)).error)
    && (outcome.Dispensed? ==>
          && Some(outcome.recipient) == recipient && Some(outcome.donor) == selected
          && Offered(inventory, outcome.recipient, outcome.donor)
          && ReadDispenseQuantity(unitsToken, Get(inventory, outcome.donor)) == Ok(outcome.units))
  }

  /** Under the decision relation, a request is dispensed exactly when every
      check passes, and then within the stock of a compatible donor. */
  lemma DecisionDispenses(inventory: Dict, recipientToken: string, selectedToken: string, unitsToken: string,
                          outcome: DispenseOutcome)
    requires DispenseDecision(inventory, recipientToken, selectedToken, unitsToken, outcome)
    ensures outcome.Dispensed? <==>
      && inventory != [] && ParseType(recipientToken).Some? && ParseType(selectedToken).Some?
      && Offered(inventory, ParseType(recipientToken).value, ParseType(selectedToken).value)
      && ParseInt(unitsToken).Some?
      && 1 <= ParseInt(unitsToken).value <= Get(inventory, ParseType(selectedToken).value)
    ensures outcome.Dispensed? ==>
      && ParseInt(unitsToken) == Some(outcome.units)
      && 1 <= outcome.units <= Get(inventory, outcome.donor)
      && outcome.recipient in Recipients(outcome.donor)
  {
  }

  /** The questions of `check_compatible_blood`, asked of `inventory` without
      changing it. A request is dispensed exactly when the inventory is not
      empty, both types are valid, the selected type may donate to the
      recipient and has stock, and the quantity lies between 1 and that
      stock. */
  method DecideDispense(inventory: Dict, recipientToken: string, selectedToken: string, unitsToken: string)
    returns (outcome: DispenseOutcome)
    ensures DispenseDecision(inventory, recipientToken, selectedToken, unitsToken, outcome)
    ensures outcome.Dispensed? <==>
      && inventory != [] && ParseType(recipientToken).Some? && ParseType(selectedToken).Some?
      && Offered(inventory, ParseType(recipientToken).value, ParseType(selectedToken).value)
      && ParseInt(unitsToken).Some?
      && 1 <= ParseInt(unitsToken).value <= Get(inventory, ParseType(selectedToken).value)
    ensures outcome.Dispensed? ==>
      && ParseInt(unitsToken) == Some(outcome.units)
      && 1 <= outcome.units <= Get(inventory, outcome.donor)
      && outcome.recipient in Recipients(outcome.donor)
  {
    if inventory == [] {
      outcome := InventoryEmpty;
    } else if ParseType(recipientToken).None? {
      outcome := UnknownRecipient;
    } else {
      var recipient := ParseType(recipientToken).value;
      var options := CompatibleDonors(recipient);
      CompatibleDonorsExact(recipient);
      var available, found := FindAvailableStock(inventory, options);
      assert forall d :: Offered(inventory, recipient, d) <==> d in available;
      if !found {
        forall d ensures !Offered(inventory, recipient, d) {
          if d in options {
            var i :| 0 <= i < |options| && options[i] == d;
          }
        }
        outcome := NoCompatibleStock;
      } else {
        var k :| 0 <= k < |options| && Get(inventory, options[k]) > 0;
        assert Offered(inventory, recipient, options[k]);
        var selection := ReadSelection(selectedToken, available);
        if selection.Err? {
          outcome := SelectionRejected(selection.error);
        } else {
          var donor := selection.value;
          var maxUnits := available[donor];
          assert maxUnits == Get(inventory, donor);
          var quantity := ReadDispenseQuantity(unitsToken, maxUnits);
          if quantity.Err? {
            outcome := QuantityRejected(quantity.error);
          } else {
            outcome := Dispensed(donor, recipient, quantity.value);
          }
        }
      }
    }
    DecisionDispenses(inventory, recipientToken, selectedToken, unitsToken, outcome);
  }
}
