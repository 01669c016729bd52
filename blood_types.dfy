/** The eight ABO/Rh blood types and how a typed token is recognised as one. */
module BloodTypes {
  import opened Wrappers
  import opened Text

  datatype BloodType = ONeg | OPos | ANeg | APos | BNeg | BPos | ABNeg | ABPos

  /** `VALID_TYPES`: the keys of the compatibility table in definition order. */
  const AllTypes: seq<BloodType> := [ONeg, OPos, ANeg, APos, BNeg, BPos, ABNeg, ABPos]

  /** The code under which a type is typed, stored and written to the file. */
  function Code(t: BloodType): string
  {
    match t
    case ONeg => "O-"
    case OPos => "O+"
    case ANeg => "A-"
    case APos => "A+"
    case BNeg => "B-"
    case BPos => "B+"
    case ABNeg => "AB-"
    case ABPos => "AB+"
  }

  /** Position of a type in `AllTypes`, i.e. in the table's definition order. */
  function Rank(t: BloodType): (k: nat)
    ensures k < |AllTypes| && AllTypes[k] == t
  {
    match t
    case ONeg => 0
    case OPos => 1
    case ANeg => 2
    case APos => 3
    case BNeg => 4
    case BPos => 5
    case ABNeg => 6
    case ABPos => 7
  }

  /** The first of `types` whose code is `c`: the linear search that `in`
      performs on the list of valid types. */
  function FindCode(c: string, types: seq<BloodType>): Option<BloodType>
    decreases |types|
  {
    if types == [] then None
    else if Code(types[0]) == c then Some(types[0])
    else FindCode(c, types[1..])
  }

  /** The membership test `token.upper().strip() in VALID_TYPES`, answering
      with the type that was recognised. */
  function ParseType(token: string): Option<BloodType>
  {
    FindCode(Normalize(token), AllTypes)
  }

  lemma AllTypesComplete(t: BloodType)
    ensures t in AllTypes
  {
    assert AllTypes[Rank(t)] == t;
  }

  /** `AllTypes` lists every type at its own rank. */
  lemma RankOfAllTypes()
    ensures forall i :: 0 <= i < |AllTypes| ==> Rank(AllTypes[i]) == i
  {
  }

  lemma RankInjective(s: BloodType, t: BloodType)
    ensures Rank(s) == Rank(t) ==> s == t
  {
    assert AllTypes[Rank(s)] == s && AllTypes[Rank(t)] == t;
  }

  /** Distinct types have distinct codes. */
  lemma CodeInjective(s: BloodType, t: BloodType)
    ensures Code(s) == Code(t) <==> s == t
  {
  }

  lemma {:induction false} FindCodeSpec(c: string, types: seq<BloodType>)
    ensures FindCode(c, types).Some? ==>
      FindCode(c, types).value in types && Code(FindCode(c, types).value) == c
    ensures FindCode(c, types).None? <==> forall t :: t in types ==> Code(t) != c
    decreases |types|
  {
    if types != [] {
      FindCodeSpec(c, types[1..]);
      assert forall t :: t in types ==> t == types[0] || t in types[1..];
    }
  }

  /** A token is recognised exactly when its normalised form is the code of a
      type, and then as that type. */
  lemma ParseTypeSpec(token: string)
    ensures ParseType(token).Some? ==> Code(ParseType(token).value) == Normalize(token)
    ensures ParseType(token).None? <==> forall t :: Code(t) != Normalize(token)
  {
    FindCodeSpec(Normalize(token), AllTypes);
    forall t ensures t in AllTypes {
      AllTypesComplete(t);
    }
  }

  /** Every code is recognised as its own type: the codes are upper case and
      carry no whitespace. */
  lemma ParseTypeOfCode(t: BloodType)
    ensures ParseType(Code(t)) == Some(t)
  {
    var c := Code(t);
    assert forall i :: 0 <= i < |c| ==> !('a' <= c[i] <= 'z');
    UpperUnchanged(c);
    assert !IsSpace(c[0]) && !IsSpace(c[|c| - 1]);
    TrimUnchanged(c);
    ParseTypeSpec(c);
    CodeInjective(ParseType(c).value, t);
  }
}
