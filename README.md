# Blood bank inventory and compatibility, modelled in Dafny

`blooddndprgm.py` is a console program for a blood bank. It keeps a stock of
units per ABO/Rh blood type in a dictionary, loads that stock from a CSV file
(or creates the file with a default stock), receives donated units, and
dispenses units to a recipient from any donor type the compatibility table
allows. After every change it rewrites the file.

This project models that core and proves what it promises:

- `BloodTypes`: the eight types, their codes, and how a typed token is
  recognised. A token is upper-cased, stripped, and looked up in
  `VALID_TYPES`.
- `Compatibility`: the donor-to-recipient table, and the reverse query that
  lists the donors able to serve a recipient, in table order.
- `Inventory`: the dictionary. It is an insertion-ordered list of entries
  with distinct keys. `d.get(t, 0)`, `d[t] = v` and the default stock live
  here.
- `Text` and `Integers`: `str.upper()`, `str.strip()`, `int(...)` and
  `str(...)`. They are restricted to ASCII and to the forms the program
  uses: `strip()` with no argument, base-10 `int()`, and `str()` of an int
  (see "## Left out").
- `Persistence`: the records `save_inventory_to_csv` writes and the
  dictionary `load_inventory_from_csv` builds from them.
- `BloodBank`: reading each answer of the two operations, the stock search,
  and the class `InventoryStore`. That class holds the inventory and the
  records last saved. Its methods `Add` (`add_new_units`) and `Dispense`
  (`check_compatible_blood`) change it in place.

Each prompt is answered here by one token. The recipient's type is asked
once: an invalid type returns to the menu, and `UnknownRecipient` is exactly
that behaviour. The other prompts repeat until the answer is acceptable: the
donated type and units in `add_new_units`, and the selected type and units
in `check_compatible_blood`. For these an unacceptable token ends the
operation with the reason the program prints before asking again, so
`Err(...)` from `Add`, `SelectionRejected` and `QuantityRejected` stand for
one refused answer rather than an end of the dialogue. The file is a parameter: it is missing, unreadable, or present as
its list of records. Saving returns the records written.

## Model

| member | source | states |
|---|---|---|
| BloodTypes.Rank | blooddndprgm.py:22 | `VALID_TYPES` lists each of the eight types at its own position, so the position identifies the type |
| BloodTypes.AllTypesComplete | blooddndprgm.py:5-14 | every blood type is a key of the table |
| BloodTypes.CodeInjective | blooddndprgm.py:5-14 | two types share a code exactly when they are the same type |
| BloodTypes.FindCodeSpec | blooddndprgm.py:54 | the membership scan returns a type of the list whose code is the string, and returns nothing exactly when no type of the list has that code |
| BloodTypes.ParseTypeSpec | blooddndprgm.py:80-81 | a token is accepted exactly when its upper-cased, stripped form is the code of a type, and then as that type |
| BloodTypes.ParseTypeOfCode | blooddndprgm.py:51-55 | every code written to the file is recognised as its own type |
| BloodTypes.AllTypes | blooddndprgm.py:22 | `VALID_TYPES`, the table's keys in definition order; `AllTypesComplete`, `Rank` and `RankOfAllTypes` state that it lists each type once, at its rank |
| BloodTypes.Code | blooddndprgm.py:5-14 | the eight code strings of the table's keys; `CodeInjective` states that they are distinct and `ParseTypeOfCode` that each is recognised as its own type |
| BloodTypes.FindCode | blooddndprgm.py:54 | the `in VALID_TYPES` test, here and at lines 81 and 110, as a search that answers with the type found; `FindCodeSpec` states what it returns in both directions |
| BloodTypes.ParseType | blooddndprgm.py:80-81 | how a blood-type answer is read, here and at lines 108 and 143: the token is upper-cased, stripped and looked up among the codes; what it accepts is stated by `ParseTypeSpec` and `ParseTypeOfCode` |
| Compatibility.TableFollowsAntigenRule | blooddndprgm.py:5-14 | the table is the ABO/Rh rule: a donor serves a recipient exactly when the recipient carries every antigen the donor carries |
| Compatibility.DonatesToSelf | blooddndprgm.py:5-14 | every type may donate to itself |
| Compatibility.UniversalDonor | blooddndprgm.py:6 | O- lists every type, in table order |
| Compatibility.UniversalRecipient | blooddndprgm.py:13 | AB+ is on every donor's list |
| Compatibility.Recipients | blooddndprgm.py:5-14 | `blood_compatibility[donor]`, the recipient list of each donor as written in the table; `TableFollowsAntigenRule`, `DonatesToSelf`, `UniversalDonor` and `UniversalRecipient` state what it holds |
| Compatibility.CompatibleDonors | blooddndprgm.py:116-119 | `compatible_options`, the table's keys whose list contains the recipient; `CompatibleDonorsExact` states its members and order, and `DonorList` its value for each recipient |
| Compatibility.DonorsAmong | blooddndprgm.py:116-119 | the comprehension's filter over a list of donors; `DonorsAmongMembers` states which donors it keeps and `DonorsAmongInOrder` that it keeps their order |
| Compatibility.DonorsAmongMembers | blooddndprgm.py:116-119 | the comprehension keeps exactly those donors of the list scanned whose recipient list contains the recipient |
| Compatibility.DonorsAmongInOrder | blooddndprgm.py:116-119 | the comprehension keeps the table's order |
| Compatibility.CompatibleDonorsExact | blooddndprgm.py:116-119 | `compatible_options` holds exactly the keys whose list contains the recipient, in definition order |
| Compatibility.TableOrderDeterminesList | blooddndprgm.py:116-119 | two lists in table order with the same members are equal, so the options are determined by their members |
| Compatibility.ReceivesFromSelf | blooddndprgm.py:116-119 | a recipient's own type is always among its options |
| Compatibility.DonorList | blooddndprgm.py:5-14 | the options for each of the eight recipients, written out |
| Inventory.IndexOf | blooddndprgm.py:55 | the first position holding a key, with no earlier entry for it |
| Inventory.Lookup | blooddndprgm.py:94 | the value stored for a key, or nothing when the key is absent; `LookupIndex` ties it to the key's position and `LookupEntry` to the key's entry |
| Inventory.Get | blooddndprgm.py:128 | `inventory.get(t, 0)`, here and at line 94: the stored count, or 0 for a missing type; `EntriesNonNegative` and `PositiveIsKey` state its bounds and `PutLookup` its value after an assignment |
| Inventory.LookupIndex | blooddndprgm.py:94 | a lookup finds the value of the key's entry, and nothing for a missing key |
| Inventory.Put | blooddndprgm.py:55 | assigning an existing key keeps the key order; a new key is appended at the end |
| Inventory.PutLookup | blooddndprgm.py:95 | after `d[t] = v`, `t` holds `v` and every other key's value is as before |
| Inventory.PutProperties | blooddndprgm.py:95 | assignment changes only its key's count, keeps every key unique, and keeps the counts non-negative when the value is non-negative |
| Inventory.LookupEntry | blooddndprgm.py:94 | in a dictionary with unique keys, each key holds the value of its own entry |
| Inventory.EntriesNonNegative | blooddndprgm.py:17-20 | entries with non-negative units make every count non-negative, a missing type counting as 0 |
| Inventory.PositiveIsKey | blooddndprgm.py:128 | a type with a positive count is a key |
| Inventory.DefaultInventoryKeys | blooddndprgm.py:17-20 | the default stock holds each type once, in table order, with no negative count |
| Inventory.DefaultCount | blooddndprgm.py:17-20 | the default counts are 15, 25, 10, 40, 5, 12, 8 and 18 for O-, O+, A-, A+, B-, B+, AB- and AB+ |
| Inventory.DefaultInventory | blooddndprgm.py:17-20 | the default stock, entry by entry in the order written; `DefaultInventoryKeys` and `DefaultCount` state its keys and counts |
| Text.TrimLeftCuts | blooddndprgm.py:51 | stripping the left end removes only a run of leading whitespace and stops at the first other character |
| Text.TrimRightCuts | blooddndprgm.py:51 | stripping the right end removes only a run of trailing whitespace and stops at the last other character |
| Text.TrimCuts | blooddndprgm.py:51 | `strip()` keeps a contiguous slice, removes only whitespace around it, and leaves no whitespace at either end |
| Text.TrimUnchanged | blooddndprgm.py:80 | a string with no whitespace at either end is stripped to itself |
| Text.UpperUnchanged | blooddndprgm.py:80 | a string with no lower-case letter is upper-cased to itself |
| Text.UpperSpec | blooddndprgm.py:80 | `upper()` keeps the length, turns each lower-case letter into its capital, keeps every other character, leaves no lower-case letter, and is idempotent |
| Text.CutBothEnds | blooddndprgm.py:51 | cutting leading whitespace and then trailing whitespace leaves a slice with only whitespace cut around it and none at its ends |
| Text.IsSpace | blooddndprgm.py:51 | the ASCII characters `strip()` removes, here and at lines 80, 108 and 143: space, codes 9 to 13 and the separators 28 to 31; `TrimCuts` and `TrimUnchanged` state what stripping removes with it |
| Text.Trim | blooddndprgm.py:51 | `str.strip()`, here and at lines 80, 108 and 143: the right end stripped after the left; `TrimCuts` states what it keeps and `TrimUnchanged` when it changes nothing |
| Text.Upper | blooddndprgm.py:80 | `str.upper()` on ASCII, character by character; `UpperSpec` and `UpperUnchanged` state what it changes |
| Text.Normalize | blooddndprgm.py:80 | a typed blood type read as `.upper().strip()`, here and at lines 51, 108 and 143; `ParseTypeSpec` and `ParseTypeOfCode` state how its result is recognised |
| Integers.NatToString | blooddndprgm.py:33 | `str(n)` of a natural number is a non-empty string of decimal digits |
| Integers.NatToStringLeadingDigit | blooddndprgm.py:33 | `str(n)` of a natural number has no leading zero: it is `"0"` for 0 and starts with a non-zero digit otherwise |
| Integers.DigitsOfNat | blooddndprgm.py:33 | the digits written for `n` read back as `n` |
| Integers.ReadBackNat | blooddndprgm.py:53 | `int` reads the digits `str` writes for a natural number back as that number |
| Integers.ReadBackNegative | blooddndprgm.py:53 | `int` reads a minus sign followed by the digits of a positive number back as its negation |
| Integers.ParseIntOfIntToString | blooddndprgm.py:53 | `int(str(i)) == i` for every integer, negative ones included |
| Integers.IntToString | blooddndprgm.py:33 | `str(i)` of a count: its digits, after a minus sign when negative; `ParseIntOfIntToString` states that `int` reads it back |
| Integers.ParseInt | blooddndprgm.py:53 | `int(s)` on a string, here and at lines 87 and 152: an optional sign and decimal digits, with `int`'s own whitespace allowed around them, and nothing for any other string; `ParseIntOfIntToString`, `ReadBackNat`, `ReadBackNegative`, `ParseIntPadded` and `SeparatorRefused` state what it accepts |
| Integers.NumberText | blooddndprgm.py:53 | the text `int` reads: the token without the space, tab, line feed, vertical tab, form feed and carriage return around it; `NumberTextUnchanged` and `PaddedNumberText` state what it removes |
| Integers.NumberTextUnchanged | blooddndprgm.py:53 | a token with no such whitespace at either end is read as it stands |
| Integers.PaddedNumberText | blooddndprgm.py:53 | adding one such whitespace character at either end leaves the text read unchanged |
| Integers.ParseIntPadded | blooddndprgm.py:53 | `int` gives the same answer when one such whitespace character is added at either end |
| Integers.SeparatorRefused | blooddndprgm.py:53 | any text that starts with a separator character (codes 28 to 31) is refused by `int`, although `strip()` would remove that character |
| Integers.SkipTrailingKeepsFirst | blooddndprgm.py:53 | skipping trailing whitespace keeps a first character that is not whitespace |
| Integers.NonDigitRefused | blooddndprgm.py:53 | a digit string holding any other character has no value |
| Integers.IntSpace | blooddndprgm.py:53 | the whitespace `int` skips around a number, here and at lines 87 and 152: space and codes 9 to 13 only; `NumberTextUnchanged`, `ParseIntPadded` and `SeparatorRefused` state what it admits and what it does not |
| Persistence.SaveRows | blooddndprgm.py:25-33 | the file holds the header and then one record per entry, in insertion order |
| Persistence.SaveInventory | blooddndprgm.py:25-33 | the loop writes exactly those records |
| Persistence.Assign | blooddndprgm.py:54-55 | assigning a record that was read keeps every key unique |
| Persistence.AssignAll | blooddndprgm.py:50-57 | the dictionary built record by record has unique keys |
| Persistence.ParseRows | blooddndprgm.py:46-57 | the dictionary loaded from any records has unique keys |
| Persistence.LoadInventory | blooddndprgm.py:38-63 | a missing file gives the default stock and writes it to a new file; an unreadable file gives an empty stock; otherwise the records after the header are read into the stock, one by one |
| Persistence.LoadedInventory | blooddndprgm.py:38-63 | the stock loading returns for each state of the file; `LoadedWellFormed`, `LoadWithoutFile`, `SaveThenLoad` and `LastRecordWins` state its properties |
| Persistence.LoadedWellFormed | blooddndprgm.py:38-63 | every stock that loading can return has unique keys |
| Persistence.EntryRowRoundTrip | blooddndprgm.py:33 | a saved record reads back as the entry it was written from |
| Persistence.EntryRow | blooddndprgm.py:33 | the record written for an entry: its code and its count as text; `EntryRowRoundTrip` states that it reads back as that entry |
| Persistence.RowEntry | blooddndprgm.py:51-57 | how one record is read: the units field through `int`, the type field normalised and looked up, and skipped when either fails; `RowEntryAccepts` and `RowEntrySkips` state both cases |
| Persistence.RowEntryAccepts | blooddndprgm.py:51-55 | a record is read as `(t, n)` exactly when its units field is the integer `n` and its type field, upper-cased and stripped, is the code of `t` |
| Persistence.SeparatorRecordSkipped | blooddndprgm.py:51-57 | a record whose units field starts with a separator (codes 28 to 31) is skipped whatever its type field holds, while the same character in front of a type field is stripped away |
| Persistence.Header | blooddndprgm.py:29 | the header record, the `fieldnames` `blood_type` and `units`; `SaveRows` puts it first and `LoadedInventory` skips it |
| Persistence.RowEntrySkips | blooddndprgm.py:51-57 | a record is skipped exactly when its units field is not an integer or its type field is not a valid type |
| Persistence.AssignAccepted | blooddndprgm.py:50-55 | assigning the entries of a dictionary with unique keys, in order, rebuilds that dictionary |
| Persistence.ReadSaved | blooddndprgm.py:25-57 | the data records of a saved file are each read as the entry they came from |
| Persistence.SaveThenLoad | blooddndprgm.py:25-63 | loading a saved file gives the same dictionary, key order included |
| Persistence.LoadWithoutFile | blooddndprgm.py:38-44 | a missing file gives the default stock, keyed in table order, and the file created for it loads back to the same stock |
| Persistence.AssignLookup | blooddndprgm.py:55 | a read record assigns its own type and leaves every other lookup unchanged |
| Persistence.LastAssignmentWins | blooddndprgm.py:50-55 | a type that no read assigns is missing; otherwise it holds the value of the last read that assigns it |
| Persistence.LastRecordWins | blooddndprgm.py:46-57 | a type is missing from the loaded stock exactly when no record is read for it; otherwise a later record overwrites an earlier one |
| Persistence.SkippedReadIgnored | blooddndprgm.py:56-57 | a skipped read leaves the result unchanged, wherever it stands |
| Persistence.SkippedRecordIgnored | blooddndprgm.py:51-57 | a record that is skipped leaves the loaded stock unchanged, wherever it stands |
| BloodBank.ReadUnitsReceived | blooddndprgm.py:84-92 | the units answer is accepted exactly when it is an integer above 0; otherwise it is refused as not a whole number or as not positive |
| BloodBank.ReadDispenseQuantity | blooddndprgm.py:148-160 | the quantity is accepted exactly when it is an integer from 1 to the stock; otherwise it is refused as not a whole number, as not positive, or as above the stock, and these cases do not overlap |
| BloodBank.ReadSelection | blooddndprgm.py:142-146 | the selection is accepted exactly when it is a valid type listed as available, and as that type; any other answer is refused alike |
| BloodBank.ReadDonation | blooddndprgm.py:79-92 | a donation is accepted exactly when the type is valid and the units are positive; the type is checked first |
| BloodBank.ReadUnitsReceivedOfNumber | blooddndprgm.py:84-92 | a count typed as `str` writes it is accepted exactly when positive |
| BloodBank.ReadDispenseQuantityOfNumber | blooddndprgm.py:148-160 | a count typed as `str` writes it is accepted exactly when it lies from 1 to the stock |
| BloodBank.FindAvailableStock | blooddndprgm.py:121-134 | the stock map holds exactly the options with a count above 0, with those counts, a missing type counting as 0; `found` holds exactly when some option has stock |
| BloodBank.DecideDispense | blooddndprgm.py:102-161 | the outcome follows the program's checks in order: an empty stock, an unknown recipient, no compatible stock, a selection that was not offered (refused as not offered), a refused quantity with its reason, and otherwise dispensing. A request is dispensed exactly when the stock is not empty, both types are valid, the selected type may donate to the recipient and has stock, and the quantity lies from 1 to that stock |
| BloodBank.DecisionDispenses | blooddndprgm.py:102-161 | under the decision relation a request is dispensed exactly when every check passes, and then the quantity lies within the stock of a compatible donor |
| BloodBank.DispenseDecision | blooddndprgm.py:102-161 | the outcome of `check_compatible_blood` as a relation: the checks in the program's order, each refusal with its reason, a refused selection as not offered, and the dispensed donor, recipient and quantity; `DecideDispense` is proved to meet it |
| BloodBank.InventoryStore.Open | blooddndprgm.py:38-63 | the store opens with the loaded stock; when the file was missing, the default stock has been saved |
| BloodBank.InventoryStore.SetCount | blooddndprgm.py:95-97 | `inventory[t] = v` followed by a save: only `t` changes, keys stay unique, the saved records are those of the new stock, and they load back as exactly that stock |
| BloodBank.InventoryStore.Add | blooddndprgm.py:77-99 | a refused answer changes nothing; otherwise the type's count becomes its old count, or 0, plus the units, no other count changes, non-negative stock stays non-negative, and the new stock is saved so that it loads back unchanged |
| BloodBank.InventoryStore.Dispense | blooddndprgm.py:102-167 | the outcome is the one decided on the stock as it was; only a dispensed request changes the store, lowering the selected count by exactly the quantity to at least 0, leaving every other count and the key order as they were, and saving the new stock so that it loads back unchanged |

## Left out

- Printing and `display_inventory`, including its sorted listing. They only show the stock.
- `main_menu` and its loop. `Add` and `Dispense` are the actions it dispatches to.
- The loops that ask again after a refused answer, in `add_new_units` (type and units) and in the dispensing prompts of `check_compatible_blood` (selected type and units). Each prompt takes one token, and a refused token ends the operation with the reason the program prints before asking again. The recipient prompt has no such loop, and its refusal is modelled exactly.
- Reading and writing files, and the `csv` module. The file is a `FileState` value. Saving returns its records. Fields are never quoted, because codes and integers contain no comma or quote.
- Failures while saving. The program prints them and carries on; the model always saves.
- Header names and column lookup. The records are taken as pairs of fields, so `row.get` with its defaults is not modelled.
- A record with fewer fields than the header. The program then calls `int(None)` or `None.upper()`, and the `TypeError` or `AttributeError` makes the whole load return an empty stock. Here every record has both fields.
- Negative counts in a loaded file. They are accepted as written. `Add` adds to such a count as it stands, and `Dispense` never offers a type whose count is not positive. `NonNegative` is therefore a hypothesis of the store's contracts, not one of its invariants.
- Text.Upper and Text.IsSpace: only ASCII upper-casing and ASCII whitespace are modelled. Python also folds and strips non-ASCII characters.
- Integers.ParseInt: the sign and decimal digits, surrounded by the ASCII whitespace `int` skips (space and codes 9 to 13), are modelled. Underscores between digits and non-ASCII digits or whitespace, which Python's `int` also accepts, are not. The limit of 4300 digits that Python 3.11 and later enforce by default (`sys.get_int_max_str_digits()`) is not modelled either: more digits are accepted here where `int` raises `ValueError`. Modelling it would put a digit-count precondition on every round trip through the file, while `str` refuses such counts on saving, which is among the save failures left out.
- Aliasing of the module-level default dictionary. The program returns that same object when the file is missing and later mutates it. Here the default is a value.
