/** labels.c: the label table and the count of labels that moved during a pass. */
module Labels {

  /** The value of a label: a segment and an offset in it. */
  datatype Address = Address(segment: int, offset: int)

  const NO_SEG := -1

  datatype Lookup = Known(address: Address) | Unknown

  type Table = map<string, Address>

  function Find(t: Table, name: string): Lookup {
    if name in t then Known(t[name]) else Unknown
  }

  /** The first definition of a name holds; later ones in the first pass are errors. */
  function Defined(t: Table, name: string, a: Address): Table {
    if name in t then t else t[name := a]
  }

  /** Whether a redefinition counts as a change: only the offset is compared. */
  predicate Moves(t: Table, name: string, a: Address) {
    name in t ==> t[name].offset != a.offset
  }

  /** Whether a redefinition changes the segment, which the code does not look at. */
  predicate ChangesSegment(t: Table, name: string, a: Address) {
    name in t ==> t[name].segment != a.segment
  }

  /** A redefinition that is not counted and keeps the segment leaves the table alone. */
  lemma QuietRedefinition(t: Table, name: string, a: Address)
    requires !Moves(t, name, a) && !ChangesSegment(t, name, a)
    ensures t[name := a] == t
  {
    assert t[name] == a;
  }

  class LabelTable {
    var table: Table
    var globalOffsetChanged: nat

    constructor ()
      ensures table == map[] && globalOffsetChanged == 0
    {
      table, globalOffsetChanged := map[], 0;
    }

    method LookupLabel(name: string) returns (r: Lookup)
      ensures r == Find(table, name)
    {
      if name in table {
        return Known(table[name]);
      }
      return Unknown;
    }

    /** define_label; `ok` is false when the symbol is redefined. */
    method DefineLabel(name: string, a: Address) returns (ok: bool)
      modifies this
      ensures table == Defined(old(table), name, a)
      ensures ok <==> name !in old(table)
      ensures globalOffsetChanged == old(globalOffsetChanged)
    {
      if name in table {
        return false;
      }
      table := table[name := a];
      return true;
    }

    /** redefine_label */
    method RedefineLabel(name: string, a: Address)
      modifies this
      ensures table == old(table)[name := a]
      ensures globalOffsetChanged == old(globalOffsetChanged) + if Moves(old(table), name, a) then 1 else 0
    {
      if name !in table || table[name].offset != a.offset {
        globalOffsetChanged := globalOffsetChanged + 1;
      }
      table := table[name := a];
    }
  }
}
