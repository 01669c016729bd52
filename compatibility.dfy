/** The donor-to-recipient compatibility table and the reverse query that
    lists the donors able to serve a recipient. */
module Compatibility {
  import opened BloodTypes

  /** `blood_compatibility[donor]`: the recipient types a donor may serve, in
      the order the table lists them. */
  function Recipients(donor: BloodType): seq<BloodType>
  {
    match donor
    case ONeg => [ONeg, OPos, ANeg, APos, BNeg, BPos, ABNeg, ABPos]
    case OPos => [OPos, APos, BPos, ABPos]
    case ANeg => [ANeg, APos, ABNeg, ABPos]
    case APos => [APos, ABPos]
    case BNeg => [BNeg, BPos, ABNeg, ABPos]
    case BPos => [BPos, ABPos]
    case ABNeg => [ABNeg, ABPos]
    case ABPos => [ABPos]
  }

  /** The red-cell antigens a type carries: its ABO letters and, when it is
      positive, the Rh(D) antigen. */
  datatype Antigen = AntigenA | AntigenB | RhD

  function Antigens(t: BloodType): set<Antigen>
  {
    match t
    case ONeg => {}
    case OPos => {RhD}
    case ANeg => {AntigenA}
    case APos => {AntigenA, RhD}
    case BNeg => {AntigenB}
    case BPos => {AntigenB, RhD}
    case ABNeg => {AntigenA, AntigenB}
    case ABPos => {AntigenA, AntigenB, RhD}
  }

  /** The table is the ABO/Rh rule: a donor may serve a recipient exactly when
      the recipient carries every antigen the donor carries. */
  lemma TableFollowsAntigenRule(donor: BloodType, recipient: BloodType)
    ensures recipient in Recipients(donor) <==> Antigens(donor) <= Antigens(recipient)
  {
    match donor
    case ONeg =>
    case OPos =>
      assert RhD in Antigens(OPos);
    case ANeg =>
      assert AntigenA in Antigens(ANeg);
    case APos =>
      assert AntigenA in Antigens(APos) && RhD in Antigens(APos);
    case BNeg =>
      assert AntigenB in Antigens(BNeg);
    case BPos =>
      assert AntigenB in Antigens(BPos) && RhD in Antigens(BPos);
    case ABNeg =>
      assert AntigenA in Antigens(ABNeg) && AntigenB in Antigens(ABNeg);
    case ABPos =>
      assert AntigenA in Antigens(ABPos) && AntigenB in Antigens(ABPos) && RhD in Antigens(ABPos);
  }

  /** Every type can donate to itself. */
  lemma DonatesToSelf(t: BloodType)
    ensures t in Recipients(t)
  {
    TableFollowsAntigenRule(t, t);
  }

  /** O- is the universal donor: its list is every type, in table order. */
  lemma UniversalDonor()
    ensures Recipients(ONeg) == AllTypes
    ensures forall r :: r in Recipients(ONeg)
  {
    forall r ensures r in Recipients(ONeg) {
      AllTypesComplete(r);
    }
  }

  /** AB+ is the universal recipient: it is on every donor's list. */
  lemma UniversalRecipient(donor: BloodType)
    ensures ABPos in Recipients(donor)
  {
    TableFollowsAntigenRule(donor, ABPos);
  }

  /** A sequence of types listed in the table's definition order, each once. */
  ghost predicate InTableOrder(s: seq<BloodType>)
  {
    forall i, j :: 0 <= i < j < |s| ==> Rank(s[i]) < Rank(s[j])
  }

  /** The list comprehension over the table's items, restricted to `types`:
      those donors, in the given order, whose list contains `recipient`. */
  function DonorsAmong(types: seq<BloodType>, recipient: BloodType): seq<BloodType>
    decreases |types|
  {
    if types == [] then []
    else if recipient in Recipients(types[0]) then [types[0]] + DonorsAmong(types[1..], recipient)
    else DonorsAmong(types[1..], recipient)
  }

  /** Filtering keeps exactly the donors whose list contains `recipient`. */
  lemma {:induction false} DonorsAmongMembers(types: seq<BloodType>, recipient: BloodType)
    ensures forall d :: d in DonorsAmong(types, recipient) <==> d in types && recipient in Recipients(d)
    decreases |types|
  {
    if types != [] {
      DonorsAmongMembers(types[1..], recipient);
      assert forall d :: d in types <==> d == types[0] || d in types[1..];
    }
  }

  /** A type placed before a list in table order whose members all come
      after it keeps the list in table order. */
  lemma PrependInOrder(head: BloodType, rest: seq<BloodType>)
    requires InTableOrder(rest)
    requires forall d :: d in rest ==> Rank(head) < Rank(d)
    ensures InTableOrder([head] + rest)
  {
    var s := [head] + rest;
    forall i, j | 0 <= i < j < |s| ensures Rank(s[i]) < Rank(s[j]) {
      assert s[j] == rest[j - 1] && rest[j - 1] in rest;
      if i > 0 {
        assert s[i] == rest[i - 1];
      }
    }
  }

  /** Filtering keeps the order of the list it filters. */
  lemma {:induction false} DonorsAmongInOrder(types: seq<BloodType>, recipient: BloodType)
    requires InTableOrder(types)
    ensures InTableOrder(DonorsAmong(types, recipient))
    decreases |types|
  {
    if types != [] {
      var rest := DonorsAmong(types[1..], recipient);
      assert InTableOrder(types[1..]);
      DonorsAmongInOrder(types[1..], recipient);
      if recipient in Recipients(types[0]) {
        DonorsAmongMembers(types[1..], recipient);
        forall d | d in rest ensures Rank(types[0]) < Rank(d) {
          var j :| 0 <= j < |types[1..]| && types[1..][j] == d;
          assert types[j + 1] == d;
        }
        PrependInOrder(types[0], rest);
      }
    }
  }

  /** `compatible_options`: every donor type that may serve `recipient`, in the
      table's definition order. */
  function CompatibleDonors(recipient: BloodType): seq<BloodType>
  {
    DonorsAmong(AllTypes, recipient)
  }

  /** The donors for `recipient` are exactly the table keys whose list
      contains it, each once, in definition order. */
  lemma CompatibleDonorsExact(recipient: BloodType)
    ensures forall d :: d in CompatibleDonors(recipient) <==> recipient in Recipients(d)
    ensures InTableOrder(CompatibleDonors(recipient))
  {
    AllTypesInOrder();
    DonorsAmongInOrder(AllTypes, recipient);
    DonorsAmongMembers(AllTypes, recipient);
    forall d ensures d in AllTypes {
      AllTypesComplete(d);
    }
  }

  lemma AllTypesInOrder()
    ensures InTableOrder(AllTypes)
  {
    RankOfAllTypes();
  }

  lemma HeadIsMember(s: seq<BloodType>)
    ensures s != [] ==> s[0] in s
  {
  }

  /** In a list in table order, the tail holds every member but the head. */
  lemma TailMembers(s: seq<BloodType>, t: BloodType)
    requires InTableOrder(s) && s != []
    ensures t in s[1..] <==> t in s && t != s[0]
  {
    if t in s[1..] {
      var i :| 0 <= i < |s[1..]| && s[1..][i] == t;
      assert s[i + 1] == t && Rank(s[0]) < Rank(s[i + 1]);
    }
    if t in s && t != s[0] {
      var k :| 0 <= k < |s| && s[k] == t;
      assert s[1..][k - 1] == t;
    }
  }

  /** Two lists in table order with the same members start alike. */
  lemma SameHead(s: seq<BloodType>, u: seq<BloodType>)
    requires InTableOrder(s) && InTableOrder(u)
    requires forall t :: t in s <==> t in u
    requires s != []
    ensures u != [] && s[0] == u[0]
  {
    assert s[0] in u;
    var i :| 0 <= i < |u| && u[i] == s[0];
    assert u[0] in s;
    var j :| 0 <= j < |s| && s[j] == u[0];
    assert Rank(s[0]) <= Rank(s[j]);
    assert Rank(u[0]) <= Rank(u[i]);
    RankInjective(s[0], u[0]);
  }

  /** A list in table order is determined by its members. */
  lemma {:induction false} TableOrderDeterminesList(s: seq<BloodType>, u: seq<BloodType>)
    requires InTableOrder(s) && InTableOrder(u)
    requires forall t :: t in s <==> t in u
    ensures s == u
    decreases |s|
  {
    if s != [] {
      SameHead(s, u);
      forall t ensures t in s[1..] <==> t in u[1..] {
        TailMembers(s, t);
        TailMembers(u, t);
      }
      TableOrderDeterminesList(s[1..], u[1..]);
      assert s == [s[0]] + s[1..] && u == [u[0]] + u[1..];
    } else {
      HeadIsMember(u);
    }
  }

  /** Every recipient can be served by its own type. */
  lemma ReceivesFromSelf(recipient: BloodType)
    ensures recipient in CompatibleDonors(recipient)
  {
    CompatibleDonorsExact(recipient);
    DonatesToSelf(recipient);
  }

  /** The answer of the reverse query, recipient by recipient. */
  lemma DonorList(recipient: BloodType)
    ensures CompatibleDonors(recipient) ==
      match recipient
      case ONeg => [ONeg]
      case OPos => [ONeg, OPos]
      case ANeg => [ONeg, ANeg]
      case APos => [ONeg, OPos, ANeg, APos]
      case BNeg => [ONeg, BNeg]
      case BPos => [ONeg, OPos, BNeg, BPos]
      case ABNeg => [ONeg, ANeg, BNeg, ABNeg]
      case ABPos => AllTypes
  {
    match recipient
    case ONeg => DonorsOfONeg();
    case OPos => DonorsOfOPos();
    case ANeg => DonorsOfANeg();
    case APos => DonorsOfAPos();
    case BNeg => DonorsOfBNeg();
    case BPos => DonorsOfBPos();
    case ABNeg => DonorsOfABNeg();
    case ABPos => DonorsOfABPos();
  }

  lemma DonorsOfONeg()
    ensures CompatibleDonors(ONeg) == [ONeg]
  {
    var expected := [ONeg];
    assert InTableOrder(expected);
    assert forall d :: d in expected <==> ONeg in Recipients(d);
    DonorListIs(ONeg, expected);
  }

  lemma DonorsOfOPos()
    ensures CompatibleDonors(OPos) == [ONeg, OPos]
  {
    var expected := [ONeg, OPos];
    assert InTableOrder(expected);
    assert forall d :: d in expected <==> OPos in Recipients(d);
    DonorListIs(OPos, expected);
  }

  lemma DonorsOfANeg()
    ensures CompatibleDonors(ANeg) == [ONeg, ANeg]
  {
    var expected := [ONeg, ANeg];
    assert InTableOrder(expected);
    assert forall d :: d in expected <==> ANeg in Recipients(d);
    DonorListIs(ANeg, expected);
  }

  lemma DonorsOfAPos()
    ensures CompatibleDonors(APos) == [ONeg, OPos, ANeg, APos]
  {
    var expected := [ONeg, OPos, ANeg, APos];
    assert InTableOrder(expected);
    assert forall d :: d in expected <==> APos in Recipients(d);
    DonorListIs(APos, expected);
  }

  lemma DonorsOfBNeg()
    ensures CompatibleDonors(BNeg) == [ONeg, BNeg]
  {
    var expected := [ONeg, BNeg];
    assert InTableOrder(expected);
    assert forall d :: d in expected <==> BNeg in Recipients(d);
    DonorListIs(BNeg, expected);
  }

  lemma DonorsOfBPos()
    ensures CompatibleDonors(BPos) == [ONeg, OPos, BNeg, BPos]
  {
    var expected := [ONeg, OPos, BNeg, BPos];
    assert InTableOrder(expected);
    assert forall d :: d in expected <==> BPos in Recipients(d);
    DonorListIs(BPos, expected);
  }

  lemma DonorsOfABNeg()
    ensures CompatibleDonors(ABNeg) == [ONeg, ANeg, BNeg, ABNeg]
  {
    var expected := [ONeg, ANeg, BNeg, ABNeg];
    assert InTableOrder(expected);
    assert forall d :: d in expected <==> ABNeg in Recipients(d);
    DonorListIs(ABNeg, expected);
  }

  lemma DonorsOfABPos()
    ensures CompatibleDonors(ABPos) == AllTypes
  {
    AllTypesInOrder();
    forall d ensures d in AllTypes && ABPos in Recipients(d) {
      AllTypesComplete(d);
      UniversalRecipient(d);
    }
    DonorListIs(ABPos, AllTypes);
  }

  lemma DonorListIs(recipient: BloodType, expected: seq<BloodType>)
    requires InTableOrder(expected)
    requires forall d :: d in expected <==> recipient in Recipients(d)
    ensures CompatibleDonors(recipient) == expected
  {
    CompatibleDonorsExact(recipient);
    TableOrderDeterminesList(CompatibleDonors(recipient), expected);
  }
}
