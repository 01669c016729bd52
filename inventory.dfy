/** The inventory: a Python dictionary from blood type to unit count. A
    dictionary keeps its keys in insertion order, which is the order in which
    it is written to the file, so it is modelled as a list of entries with
    distinct keys. */
module Inventory {
  import opened Wrappers
  import opened BloodTypes

  datatype Entry = Entry(bloodType: BloodType, units: int)

  type Dict = seq<Entry>

  /** The keys of the dictionary in insertion order. */
  function Keys(d: Dict): seq<BloodType>
  {
    seq(|d|, i requires 0 <= i < |d| => d[i].bloodType)
  }

  /** Each key occurs once, as in every Python dictionary. */
  ghost predicate WellFormed(d: Dict)
  {
    forall i, j :: 0 <= i < j < |d| ==> d[i].bloodType != d[j].bloodType
  }

  /** Position of the entry for `t`, the first one should there be several. */
  function IndexOf(d: Dict, t: BloodType): (i: nat)
    requires t in Keys(d)
    ensures i < |d| && d[i].bloodType == t
    ensures forall j :: 0 <= j < i ==> d[j].bloodType != t
    decreases |d|
  {
    if d[0].bloodType == t then 0
    else
      assert Keys(d)[1..] == Keys(d[1..]);
      1 + IndexOf(d[1..], t)
  }

  /** `d[t]` when `t` is a key of `d`, found by scanning the entries. */
  function Lookup(d: Dict, t: BloodType): Option<int>
    decreases |d|
  {
    if d == [] then None
    else if d[0].bloodType == t then Some(d[0].units)
    else Lookup(d[1..], t)
  }

  /** A lookup finds the key's first entry, and nothing for a type that is
      not a key. */
  lemma {:induction false} LookupIndex(d: Dict, t: BloodType)
    ensures Lookup(d, t) == if t in Keys(d) then Some(d[IndexOf(d, t)].units) else None
    decreases |d|
  {
    if d != [] && d[0].bloodType != t {
      LookupIndex(d[1..], t);
      assert Keys(d) == [d[0].bloodType] + Keys(d[1..]);
      assert t in Keys(d) <==> t in Keys(d[1..]);
      if t in Keys(d) {
        assert IndexOf(d, t) == 1 + IndexOf(d[1..], t);
      }
    } else if d != [] {
      assert Keys(d)[0] == t;
    }
  }

  /** `d.get(t, 0)`: a missing type counts as no units. */
  function Get(d: Dict, t: BloodType): int
  {
    match Lookup(d, t)
    case Some(n) => n
    case None => 0
  }

  /** `d[t] = v`: an existing key keeps its place and takes the new value; a
      new key is appended at the end. */
  function Put(d: Dict, t: BloodType, v: int): (r: Dict)
    ensures Keys(r) == if t in Keys(d) then Keys(d) else Keys(d) + [t]
    ensures t !in Keys(d) ==> r == d + [Entry(t, v)]
    ensures t in Keys(d) ==> |r| == |d|
  {
    if t in Keys(d) then
      var r := d[IndexOf(d, t) := Entry(t, v)];
      assert Keys(r) == Keys(d);
      r
    else
      var r := d + [Entry(t, v)];
      assert Keys(r) == Keys(d) + [t];
      r
  }

  /** The first entry for a key is the one no earlier entry shares its key with. */
  lemma IndexOfFirst(d: Dict, t: BloodType, i: nat)
    requires i < |d| && d[i].bloodType == t
    requires forall j :: 0 <= j < i ==> d[j].bloodType != t
    ensures t in Keys(d) && IndexOf(d, t) == i
  {
    assert Keys(d)[i] == t;
    var k := IndexOf(d, t);
    assert !(k < i) && !(i < k);
  }

  /** After `d[t] = v`, looking up `t` gives `v` and every other lookup is
      as before. */
  lemma PutLookup(d: Dict, t: BloodType, v: int, k: BloodType)
    ensures Lookup(Put(d, t, v), k) == if k == t then Some(v) else Lookup(d, k)
  {
    var r := Put(d, t, v);
    LookupIndex(d, k);
    LookupIndex(r, k);
    if t in Keys(d) {
      var p := IndexOf(d, t);
      if k == t {
        IndexOfFirst(r, t, p);
      } else if k in Keys(d) {
        var q := IndexOf(d, k);
        assert r[q] == d[q];
        IndexOfFirst(r, k, q);
      }
    } else {
      if k == t {
        forall j | 0 <= j < |d| ensures r[j].bloodType != t {
          assert Keys(d)[j] == r[j].bloodType;
        }
        IndexOfFirst(r, t, |d|);
      } else if k in Keys(d) {
        IndexOfFirst(r, k, IndexOf(d, k));
      }
    }
  }

  /** No type has a negative count. */
  ghost predicate NonNegative(d: Dict)
  {
    forall t :: Get(d, t) >= 0
  }

  /** The value stored under a key of a well-formed dictionary is the one in
      its entry. */
  lemma LookupEntry(d: Dict, i: nat)
    requires WellFormed(d) && i < |d|
    ensures Lookup(d, d[i].bloodType) == Some(d[i].units)
  {
    IndexOfFirst(d, d[i].bloodType, i);
    LookupIndex(d, d[i].bloodType);
  }

  /** Assignment changes the count of its key only, and keeps the dictionary
      well formed and, for a non-negative value, non-negative. */
  lemma PutProperties(d: Dict, t: BloodType, v: int)
    ensures Get(Put(d, t, v), t) == v
    ensures forall k :: k != t ==> Get(Put(d, t, v), k) == Get(d, k)
    ensures WellFormed(d) ==> WellFormed(Put(d, t, v))
    ensures NonNegative(d) && v >= 0 ==> NonNegative(Put(d, t, v))
  {
    var r := Put(d, t, v);
    PutLookup(d, t, v, t);
    forall k | k != t ensures Get(r, k) == Get(d, k) {
      PutLookup(d, t, v, k);
    }
    if WellFormed(d) {
      forall i, j | 0 <= i < j < |r| ensures r[i].bloodType != r[j].bloodType {
        assert Keys(r)[i] == r[i].bloodType && Keys(r)[j] == r[j].bloodType;
        if t !in Keys(d) && j == |d| {
          assert Keys(d)[i] == r[i].bloodType;
        } else {
          assert Keys(d)[i] == r[i].bloodType && Keys(d)[j] == r[j].bloodType;
          assert d[i].bloodType != d[j].bloodType;
        }
      }
    }
    if NonNegative(d) && v >= 0 {
      forall k ensures Get(r, k) >= 0 {
        assert Get(d, k) >= 0;
        PutLookup(d, t, v, k);
      }
    }
  }

  /** A dictionary whose entries all hold non-negative counts is
      non-negative. */
  lemma EntriesNonNegative(d: Dict)
    requires forall i :: 0 <= i < |d| ==> d[i].units >= 0
    ensures NonNegative(d)
  {
    forall t ensures Get(d, t) >= 0 {
      LookupIndex(d, t);
      if t in Keys(d) {
        assert d[IndexOf(d, t)].units >= 0;
      }
    }
  }

  /** A positive count means the type is a key. */
  lemma PositiveIsKey(d: Dict, t: BloodType)
    ensures Get(d, t) > 0 ==> t in Keys(d)
  {
    LookupIndex(d, t);
  }

  /** `blood_inventory`: the inventory used when there is no file yet. */
  const DefaultInventory: Dict := [
    Entry(ONeg, 15), Entry(OPos, 25), Entry(ANeg, 10), Entry(APos, 40),
    Entry(BNeg, 5), Entry(BPos, 12), Entry(ABNeg, 8), Entry(ABPos, 18)
  ]

  /** The default inventory holds every type once, in table order, and no
      negative count. */
  lemma DefaultInventoryKeys()
    ensures Keys(DefaultInventory) == AllTypes
    ensures WellFormed(DefaultInventory) && NonNegative(DefaultInventory)
  {
    var d := DefaultInventory;
    assert Keys(d) == AllTypes;
    forall i, j | 0 <= i < j < |d| ensures d[i].bloodType != d[j].bloodType {
      assert Rank(d[i].bloodType) == i && Rank(d[j].bloodType) == j;
    }
    EntriesNonNegative(d);
  }

  /** The documented default counts. */
  lemma DefaultCount(t: BloodType)
    ensures Get(DefaultInventory, t) ==
      match t
      case ONeg => 15
      case OPos => 25
      case ANeg => 10
      case APos => 40
      case BNeg => 5
      case BPos => 12
      case ABNeg => 8
      case ABPos => 18
  {
    DefaultInventoryKeys();
    LookupEntry(DefaultInventory, Rank(t));
    assert DefaultInventory[Rank(t)].bloodType == t;
  }
}
