/**
 * The register table of the simulated Lufft WS501-UMB weather station, as
 * values: the records, raw access by register type and address, scaled access
 * by parameter name, and the laws relating them.
 */
module RegisterTable {

  datatype Option<T> = None | Some(value: T)

  /** The register types that callers name: holding, input, discrete input, coil. */
  datatype RegType = HR | IR | DI | CO

  datatype Encoding = UInt16 | Int16

  /**
   * One record of the table: a parameter name, its register type, the
   * addresses it occupies with their raw values, an optional integer scaling
   * factor and an encoding tag.
   */
  datatype Register = Register(
    name: string,
    regType: RegType,
    sparse: map<int, int>,
    factor: Option<int>,
    enc: Encoding)

  /** The two writes that clear the absolute rain quantity, and the register they clear. */
  const ResetNames: seq<string> := ["Reset Abs. Rain", "Device Reset"]
  const RainAbs: string := "Precipitation abs mm"

  /** One line of the table as written: a record with a single address and its starting value. */
  datatype Entry = Entry(
    name: string,
    regType: RegType,
    address: int,
    initial: int,
    factor: Option<int>,
    enc: Encoding)

  /** The lines of the table, in order. */
  const Entries: seq<Entry> := [
    Entry("Identification", IR, 0, 0, None, UInt16),
    Entry("Sensor Status 1", IR, 2, 0, None, UInt16),
    Entry("Sensor Status 2", IR, 3, 0, None, UInt16),
    Entry("Sensor Status 3", IR, 4, 0, None, UInt16),
    Entry("Sensor Status 4", IR, 5, 0, None, UInt16),
    Entry("Sensor Status 5", IR, 6, 0, None, UInt16),
    Entry("Sensor Status 6", IR, 7, 0, None, UInt16),
    Entry("Relative Humidity (act)", IR, 10, 0, Some(10), Int16),
    Entry("Relative Air Pressure (act)", IR, 14, 0, Some(10), Int16),
    Entry("Wind Direction (act)", IR, 18, 0, Some(10), Int16),
    Entry("Precipitation Type", IR, 25, 0, Some(1), Int16),
    Entry("Global Radiation (act)", IR, 27, 0, Some(10), Int16),
    Entry("Air Temperature C (act)", IR, 31, 0, Some(10), Int16),
    Entry("Dew Point C (act)", IR, 35, 0, Some(10), Int16),
    Entry("Precipitation abs mm", IR, 48, 0, Some(100), UInt16),
    Entry("Precipitation Intensity mm/h", IR, 50, 0, Some(100), UInt16),
    Entry("Wind Speed kph (max)", IR, 85, 0, Some(100), UInt16),
    Entry("Wind Speed kph (avg)", IR, 86, 0, Some(100), UInt16),
    Entry("Local Altitude", HR, 0, 0, Some(1), UInt16),
    Entry("Averaging Interval TFF", HR, 2, 1, Some(1), UInt16),
    Entry("Averaging Interval Air Pressure", HR, 3, 1, Some(1), UInt16),
    Entry("Averaging Interval Wind", HR, 4, 1, Some(1), UInt16),
    Entry("Averaging Interval Radiation", HR, 5, 1, Some(1), UInt16),
    Entry("Reset Abs. Rain", HR, 7, 0, Some(1), UInt16),
    Entry("Device Reset", HR, 8, 0, Some(1), UInt16)
  ]

  function Load(e: Entry): Register
  {
    Register(e.name, e.regType, map[e.address := e.initial], e.factor, e.enc)
  }

  /** The table the simulator starts from. */
  function Table(): seq<Register>
  {
    seq(|Entries|, i requires 0 <= i < |Entries| => Load(Entries[i]))
  }

  // ---------------------------------------------------------------------------
  // Layout: everything about a record except its values.

  predicate SameShape(r: Register, s: Register)
  {
    r.name == s.name && r.regType == s.regType && r.sparse.Keys == s.sparse.Keys &&
    r.factor == s.factor && r.enc == s.enc
  }

  /** Two tables with the same records in the same order, values aside. */
  predicate SameLayout(regs: seq<Register>, other: seq<Register>)
  {
    |regs| == |other| && forall i :: 0 <= i < |regs| ==> SameShape(regs[i], other[i])
  }

  /** No two records claim the same type and address. */
  predicate DisjointSlots(regs: seq<Register>)
  {
    forall i, j, a :: 0 <= i < j < |regs| && a in regs[i].sparse && a in regs[j].sparse ==>
      regs[i].regType != regs[j].regType
  }

  /** No record divides by zero on a read. */
  predicate NonZeroFactors(regs: seq<Register>)
  {
    forall i :: 0 <= i < |regs| ==> regs[i].factor != Some(0)
  }

  // ---------------------------------------------------------------------------
  // Raw access by register type and address.

  predicate Holds(r: Register, t: RegType, a: int)
  {
    r.regType == t && a in r.sparse
  }

  /** The first record whose type is `t` and whose addresses include `a`. */
  function FindSlot(regs: seq<Register>, t: RegType, a: int): (r: Option<nat>)
    ensures r.Some? ==> r.value < |regs| && Holds(regs[r.value], t, a)
    ensures r.Some? ==> forall j :: 0 <= j < r.value ==> !Holds(regs[j], t, a)
    ensures r.None? <==> forall j :: 0 <= j < |regs| ==> !Holds(regs[j], t, a)
  {
    if regs == [] then None
    else if Holds(regs[0], t, a) then Some(0)
    else match FindSlot(regs[1..], t, a)
      case None => None
      case Some(i) => Some(i + 1)
  }

  /** The raw value at type `t`, address `a`: that of the first record holding it, else 0. */
  function Read(regs: seq<Register>, t: RegType, a: int): int
  {
    match FindSlot(regs, t, a)
    case None => 0
    case Some(i) => regs[i].sparse[a]
  }

  /** Stores `v` in the slot of the first record holding type `t`, address `a`; no such record, no change. */
  function Write(regs: seq<Register>, t: RegType, a: int, v: int): seq<Register>
  {
    match FindSlot(regs, t, a)
    case None => regs
    case Some(i) => regs[i := regs[i].(sparse := regs[i].sparse[a := v])]
  }

  /** Tables with one layout find the same slots. */
  lemma FindSlotByLayout(regs: seq<Register>, other: seq<Register>, t: RegType, a: int)
    requires SameLayout(regs, other)
    ensures FindSlot(regs, t, a) == FindSlot(other, t, a)
  {
    var x, y := FindSlot(regs, t, a), FindSlot(other, t, a);
    assert forall j :: 0 <= j < |regs| ==> (Holds(regs[j], t, a) <==> Holds(other[j], t, a));
    if x.Some? && y.Some? {
      assert !(x.value < y.value) && !(y.value < x.value);
    } else {
      assert x.None? == y.None?;
    }
  }

  lemma WriteKeepsLayout(regs: seq<Register>, t: RegType, a: int, v: int)
    ensures SameLayout(Write(regs, t, a, v), regs)
  {
  }

  /** Writing a slot that exists and reading it back gives the written value. */
  lemma ReadAfterWrite(regs: seq<Register>, t: RegType, a: int, v: int)
    requires FindSlot(regs, t, a).Some?
    ensures Read(Write(regs, t, a, v), t, a) == v
  {
    WriteKeepsLayout(regs, t, a, v);
    FindSlotByLayout(Write(regs, t, a, v), regs, t, a);
  }

  /** Writing one slot leaves every other type and address reading as before. */
  lemma WriteFrame(regs: seq<Register>, t: RegType, a: int, v: int, t': RegType, a': int)
    requires t != t' || a != a'
    ensures Read(Write(regs, t, a, v), t', a') == Read(regs, t', a')
  {
    WriteKeepsLayout(regs, t, a, v);
    FindSlotByLayout(Write(regs, t, a, v), regs, t', a');
  }

  /**
   * A write changes exactly one value: the slot found for `t`, `a`; when no
   * record holds that slot the table is unchanged.
   */
  lemma WriteChangesOneSlot(regs: seq<Register>, t: RegType, a: int, v: int, i: int, b: int)
    requires 0 <= i < |regs| && b in regs[i].sparse
    ensures |Write(regs, t, a, v)| == |regs|
    ensures b in Write(regs, t, a, v)[i].sparse
    ensures Write(regs, t, a, v)[i].sparse[b] ==
      if FindSlot(regs, t, a) == Some(i) && b == a then v else regs[i].sparse[b]
    ensures FindSlot(regs, t, a).None? ==> Write(regs, t, a, v) == regs
  {
  }

  /** A slot no record holds reads as 0. */
  lemma ReadMissing(regs: seq<Register>, t: RegType, a: int)
    requires forall j :: 0 <= j < |regs| ==> !Holds(regs[j], t, a)
    ensures Read(regs, t, a) == 0
  {
  }

  // ---------------------------------------------------------------------------
  // Scaling.

  /** The raw value stored for `v`: multiplied by an integer factor, else as given. */
  function Scale(f: Option<int>, v: int): int
  {
    if f.Some? then v * f.value else v
  }

  /** Python 2's `x / d` on integers: the quotient rounded towards minus infinity. */
  function FloorDiv(x: int, d: int): (q: int)
    requires d != 0
    ensures d > 0 ==> q * d <= x < q * d + d
    ensures d < 0 ==> q * d + d < x <= q * d
  {
    if d > 0 then x / d else (-x) / (-d)
  }

  /** The parameter value read back from a raw value: divided by a factor other than 1. */
  function Unscale(f: Option<int>, raw: int): int
    requires f != Some(0)
  {
    if f.Some? && f.value != 1 then FloorDiv(raw, f.value) else raw
  }

  /** Reading back what was scaled gives the value itself, for every factor but 0. */
  lemma UnscaleScale(f: Option<int>, v: int)
    requires f != Some(0)
    ensures Unscale(f, Scale(f, v)) == v
  {
    if f.Some? && f.value != 1 {
      var d := f.value;
      FloorDivExact(v, d);
    }
  }

  lemma FloorDivExact(v: int, d: int)
    requires d != 0
    ensures FloorDiv(v * d, d) == v
  {
    var q := FloorDiv(v * d, d);
    var e := q - v;
    assert e * d == q * d - v * d;
    if d > 0 {
      assert e * d <= 0 < e * d + d;
      if e >= 1 { MulMonotone(e - 1, d); }
      if e <= -1 { MulMonotone(-e - 1, d); }
    } else {
      assert e * d + d < 0 <= e * d;
      if e >= 1 { MulMonotone(e - 1, -d); }
      if e <= -1 { MulMonotone(-e - 1, -d); }
    }
  }

  lemma MulMonotone(x: int, y: int)
    requires x >= 0 && y >= 0
    ensures x * y >= 0 && (x + 1) * y == x * y + y && (-x - 1) * y == -(x * y) - y
  {
  }

  // ---------------------------------------------------------------------------
  // Scaled access by name.

  /** The first record named `n`. */
  function FindByName(regs: seq<Register>, n: string): (r: Option<nat>)
    ensures r.Some? ==> r.value < |regs| && regs[r.value].name == n
    ensures r.Some? ==> forall j :: 0 <= j < r.value ==> regs[j].name != n
    ensures r.None? <==> forall j :: 0 <= j < |regs| ==> regs[j].name != n
  {
    if regs == [] then None
    else if regs[0].name == n then Some(0)
    else match FindByName(regs[1..], n)
      case None => None
      case Some(i) => Some(i + 1)
  }

  lemma FindByNameByLayout(regs: seq<Register>, other: seq<Register>, n: string)
    requires SameLayout(regs, other)
    ensures FindByName(regs, n) == FindByName(other, n)
  {
    var x, y := FindByName(regs, n), FindByName(other, n);
    assert forall j :: 0 <= j < |regs| ==> regs[j].name == other[j].name;
    if x.Some? && y.Some? {
      assert !(x.value < y.value) && !(y.value < x.value);
    } else {
      assert x.None? == y.None?;
    }
  }

  /**
   * Writes `v` through `Write` at type `t` for every address in `keys`: each
   * slot goes to the first record holding it. Distinct slots do not interfere,
   * so the order of the writes does not matter.
   */
  function WriteAll(regs: seq<Register>, t: RegType, keys: set<int>, v: int): (r: seq<Register>)
    ensures |r| == |regs|
  {
    seq(|regs|, i requires 0 <= i < |regs| =>
      regs[i].(sparse := map b | b in regs[i].sparse ::
        if b in keys && FindSlot(regs, t, b) == Some(i) then v else regs[i].sparse[b]))
  }

  lemma WriteAllKeepsLayout(regs: seq<Register>, t: RegType, keys: set<int>, v: int)
    ensures SameLayout(WriteAll(regs, t, keys, v), regs)
  {
  }

  lemma WriteAllNone(regs: seq<Register>, t: RegType, v: int)
    ensures WriteAll(regs, t, {}, v) == regs
  {
    var r := WriteAll(regs, t, {}, v);
    forall i | 0 <= i < |regs| ensures r[i] == regs[i] {
      assert r[i].sparse == regs[i].sparse;
    }
  }

  /** The value `WriteAll` leaves at record `i`, address `b`. */
  lemma WriteAllAt(regs: seq<Register>, t: RegType, keys: set<int>, v: int, i: int, b: int)
    requires 0 <= i < |regs| && b in regs[i].sparse
    ensures b in WriteAll(regs, t, keys, v)[i].sparse
    ensures WriteAll(regs, t, keys, v)[i].sparse[b] ==
      if b in keys && FindSlot(regs, t, b) == Some(i) then v else regs[i].sparse[b]
  {
  }

  /** One more write extends the set of written addresses by one. */
  lemma WriteAllStep(regs: seq<Register>, t: RegType, keys: set<int>, a: int, v: int)
    ensures Write(WriteAll(regs, t, keys, v), t, a, v) == WriteAll(regs, t, keys + {a}, v)
  {
    var lhs := Write(WriteAll(regs, t, keys, v), t, a, v);
    var rhs := WriteAll(regs, t, keys + {a}, v);
    forall i | 0 <= i < |regs| ensures lhs[i] == rhs[i] {
      WriteAllStepAt(regs, t, keys, a, v, i);
    }
  }

  lemma WriteAllStepAt(regs: seq<Register>, t: RegType, keys: set<int>, a: int, v: int, i: int)
    requires 0 <= i < |regs|
    ensures |Write(WriteAll(regs, t, keys, v), t, a, v)| == |regs|
    ensures Write(WriteAll(regs, t, keys, v), t, a, v)[i] == WriteAll(regs, t, keys + {a}, v)[i]
  {
    var w := WriteAll(regs, t, keys, v);
    var lhs := Write(w, t, a, v);
    var rhs := WriteAll(regs, t, keys + {a}, v);
    WriteAllKeepsLayout(regs, t, keys, v);
    WriteAllKeepsLayout(regs, t, keys + {a}, v);
    WriteKeepsLayout(w, t, a, v);
    assert SameShape(lhs[i], regs[i]) && SameShape(rhs[i], regs[i]);
    forall b | b in regs[i].sparse ensures lhs[i].sparse[b] == rhs[i].sparse[b] {
      WriteAllStepAtKey(regs, t, keys, a, v, i, b);
    }
    assert lhs[i].sparse == rhs[i].sparse;
  }

  lemma WriteAllStepAtKey(regs: seq<Register>, t: RegType, keys: set<int>, a: int, v: int, i: int, b: int)
    requires 0 <= i < |regs| && b in regs[i].sparse
    ensures |Write(WriteAll(regs, t, keys, v), t, a, v)| == |regs|
    ensures b in Write(WriteAll(regs, t, keys, v), t, a, v)[i].sparse
    ensures b in WriteAll(regs, t, keys + {a}, v)[i].sparse
    ensures Write(WriteAll(regs, t, keys, v), t, a, v)[i].sparse[b] == WriteAll(regs, t, keys + {a}, v)[i].sparse[b]
  {
    var w := WriteAll(regs, t, keys, v);
    WriteAllKeepsLayout(regs, t, keys, v);
    FindSlotByLayout(w, regs, t, a);
    assert SameShape(w[i], regs[i]);
    WriteChangesOneSlot(w, t, a, v, i, b);
    WriteAllAt(regs, t, keys, v, i, b);
    WriteAllAt(regs, t, keys + {a}, v, i, b);
  }

  /** After `WriteAll`, every written address reads `v`. */
  lemma ReadAfterWriteAll(regs: seq<Register>, t: RegType, keys: set<int>, v: int, a: int)
    requires a in keys && FindSlot(regs, t, a).Some?
    ensures Read(WriteAll(regs, t, keys, v), t, a) == v
  {
    WriteAllKeepsLayout(regs, t, keys, v);
    FindSlotByLayout(WriteAll(regs, t, keys, v), regs, t, a);
  }

  /** After `WriteAll`, a slot of another type, or an address not written, reads as before. */
  lemma WriteAllFrame(regs: seq<Register>, t: RegType, keys: set<int>, v: int, t': RegType, a': int)
    requires t != t' || a' !in keys
    ensures Read(WriteAll(regs, t, keys, v), t', a') == Read(regs, t', a')
  {
    WriteAllKeepsLayout(regs, t, keys, v);
    FindSlotByLayout(WriteAll(regs, t, keys, v), regs, t', a');
  }

  /** The write of one set_value, before any rain reset: every address of the first record named `n`. */
  function SetByName(regs: seq<Register>, n: string, v: int): seq<Register>
  {
    match FindByName(regs, n)
    case None => regs
    case Some(i) => WriteAll(regs, regs[i].regType, regs[i].sparse.Keys, Scale(regs[i].factor, v))
  }

  /** The effect of set_value: the named write, then the rain reset for the two reset names. */
  function AfterSet(regs: seq<Register>, n: string, v: int): seq<Register>
    decreases if n in ResetNames then 1 else 0
  {
    var written := SetByName(regs, n, v);
    if n in ResetNames then AfterSet(written, RainAbs, 0) else written
  }

  lemma SetByNameKeepsLayout(regs: seq<Register>, n: string, v: int)
    ensures SameLayout(SetByName(regs, n, v), regs)
  {
    match FindByName(regs, n)
    case None =>
    case Some(i) =>
      WriteAllKeepsLayout(regs, regs[i].regType, regs[i].sparse.Keys, Scale(regs[i].factor, v));
  }

  /** For a reset name, set_value is the named write followed by the rain reset. */
  lemma AfterSetReset(regs: seq<Register>, n: string, v: int)
    requires n in ResetNames
    ensures AfterSet(regs, n, v) == AfterSet(SetByName(regs, n, v), RainAbs, 0)
  {
  }

  lemma AfterSetKeepsLayout(regs: seq<Register>, n: string, v: int)
    ensures SameLayout(AfterSet(regs, n, v), regs)
    decreases if n in ResetNames then 1 else 0
  {
    SetByNameKeepsLayout(regs, n, v);
    if n in ResetNames {
      AfterSetKeepsLayout(SetByName(regs, n, v), RainAbs, 0);
    }
  }

  /** A name that is neither in the table nor a reset name changes nothing. */
  lemma AfterSetUnknownName(regs: seq<Register>, n: string, v: int)
    requires FindByName(regs, n).None? && n !in ResetNames
    ensures AfterSet(regs, n, v) == regs
  {
  }

  /**
   * The values `get_value` may return for `n`: 0 for an unknown name; otherwise
   * the raw value of one of the record's addresses (0 when it has none),
   * read back through the factor.
   */
  ghost predicate IsValueOf(regs: seq<Register>, n: string, r: int)
  {
    match FindByName(regs, n)
    case None => r == 0
    case Some(i) =>
      regs[i].factor != Some(0) &&
      if regs[i].sparse == map[] then r == Unscale(regs[i].factor, 0)
      else exists a :: a in regs[i].sparse && r == Unscale(regs[i].factor, Read(regs, regs[i].regType, a))
  }

  /** Every address of the first record named `n` reads its scaled value after `SetByName`. */
  lemma ReadAfterSetByName(regs: seq<Register>, n: string, v: int, i: nat, a: int)
    requires FindByName(regs, n) == Some(i) && a in regs[i].sparse
    ensures Read(SetByName(regs, n, v), regs[i].regType, a) == Scale(regs[i].factor, v)
  {
    assert Holds(regs[i], regs[i].regType, a);
    ReadAfterWriteAll(regs, regs[i].regType, regs[i].sparse.Keys, Scale(regs[i].factor, v), a);
  }

  /** Under disjoint slots, the record found for one of its own slots is itself. */
  lemma OwnSlot(regs: seq<Register>, i: nat, a: int)
    requires DisjointSlots(regs) && i < |regs| && a in regs[i].sparse
    ensures FindSlot(regs, regs[i].regType, a) == Some(i)
  {
    assert Holds(regs[i], regs[i].regType, a);
  }

  /**
   * The rain reset, a `SetByName` on another record, leaves the slots of
   * record `i` alone when no two records share a slot.
   */
  lemma SetByNameOtherRecord(regs: seq<Register>, m: string, v: int, i: nat, a: int)
    requires DisjointSlots(regs) && i < |regs| && a in regs[i].sparse
    requires FindByName(regs, m) != Some(i)
    ensures Read(SetByName(regs, m, v), regs[i].regType, a) == Read(regs, regs[i].regType, a)
  {
    match FindByName(regs, m)
    case None =>
    case Some(k) =>
      var t := regs[k].regType;
      assert t != regs[i].regType || a !in regs[k].sparse;
      WriteAllFrame(regs, t, regs[k].sparse.Keys, Scale(regs[k].factor, v), regs[i].regType, a);
  }

  lemma DisjointByLayout(regs: seq<Register>, other: seq<Register>)
    requires SameLayout(regs, other) && DisjointSlots(other)
    ensures DisjointSlots(regs)
  {
    forall i, j, a | 0 <= i < j < |regs| && a in regs[i].sparse && a in regs[j].sparse
      ensures regs[i].regType != regs[j].regType
    {
      assert SameShape(regs[i], other[i]) && SameShape(regs[j], other[j]);
      assert a in other[i].sparse && a in other[j].sparse;
    }
  }

  /**
   * After set_value on `n`, every address of the first record named `n` reads
   * its scaled value, when no two records share a slot: the rain reset writes
   * another record.
   */
  lemma ReadAfterSet(regs: seq<Register>, n: string, v: int, i: nat, a: int)
    requires DisjointSlots(regs)
    requires FindByName(regs, n) == Some(i) && a in regs[i].sparse
    ensures Read(AfterSet(regs, n, v), regs[i].regType, a) == Scale(regs[i].factor, v)
  {
    var written := SetByName(regs, n, v);
    ReadAfterSetByName(regs, n, v, i, a);
    if n in ResetNames {
      RainIsNoReset();
      assert AfterSet(regs, n, v) == SetByName(written, RainAbs, 0);
      SetByNameKeepsLayout(regs, n, v);
      DisjointByLayout(written, regs);
      FindByNameByLayout(written, regs, RainAbs);
      assert SameShape(written[i], regs[i]);
      SetByNameOtherRecord(written, RainAbs, 0, i, a);
    }
  }

  lemma RainIsNoReset()
    ensures RainAbs !in ResetNames
  {
    assert RainAbs[0] != ResetNames[0][0] && RainAbs[0] != ResetNames[1][0];
  }

  /**
   * Setting a value by name and getting it back returns the value, for a
   * record with at least one address and a non-zero factor, when no two
   * records share a slot.
   */
  lemma SetThenGet(regs: seq<Register>, n: string, v: int, r: int)
    requires DisjointSlots(regs) && NonZeroFactors(regs)
    requires FindByName(regs, n).Some? && regs[FindByName(regs, n).value].sparse != map[]
    requires IsValueOf(AfterSet(regs, n, v), n, r)
    ensures r == v
  {
    var i := FindByName(regs, n).value;
    var after := AfterSet(regs, n, v);
    AfterSetKeepsLayout(regs, n, v);
    FindByNameByLayout(after, regs, n);
    assert SameShape(after[i], regs[i]);
    var a :| a in after[i].sparse && r == Unscale(regs[i].factor, Read(after, regs[i].regType, a));
    ReadAfterSet(regs, n, v, i, a);
    UnscaleScale(regs[i].factor, v);
  }

  /**
   * After set_value(n, v), `v` is one of the values get_value(n) may return,
   * for a record holding address `a`, when no two records share a slot.
   */
  lemma GetAfterSet(regs: seq<Register>, n: string, v: int, a: int)
    requires DisjointSlots(regs) && NonZeroFactors(regs)
    requires FindByName(regs, n).Some? && a in regs[FindByName(regs, n).value].sparse
    ensures IsValueOf(AfterSet(regs, n, v), n, v)
  {
    var i := FindByName(regs, n).value;
    var after := AfterSet(regs, n, v);
    AfterSetKeepsLayout(regs, n, v);
    FindByNameByLayout(after, regs, n);
    assert SameShape(after[i], regs[i]);
    ReadAfterSet(regs, n, v, i, a);
    UnscaleScale(regs[i].factor, v);
    assert a in after[i].sparse && v == Unscale(after[i].factor, Read(after, after[i].regType, a));
  }

  // ---------------------------------------------------------------------------
  // The table itself.

  /** The index of the table record that owns type `t`, address `a`, or -1 for none. */
  function Owner(t: RegType, a: int): int
  {
    match t
    case IR =>
      if a == 0 then 0 else if 2 <= a <= 7 then a - 1 else if a == 10 then 7 else if a == 14 then 8
      else if a == 18 then 9 else if a == 25 then 10 else if a == 27 then 11 else if a == 31 then 12
      else if a == 35 then 13 else if a == 48 then 14 else if a == 50 then 15 else if a == 85 then 16
      else if a == 86 then 17 else -1
    case HR =>
      if a == 0 then 18 else if 2 <= a <= 5 then a + 17 else if a == 7 then 23 else if a == 8 then 24 else -1
    case _ => -1
  }

  /** What every record of the table holds before any write: a slot, starting at 0 or 1, and a usable factor. */
  lemma TableRecord(i: int)
    requires 0 <= i < |Table()|
    ensures Table()[i].sparse != map[]
    ensures forall a :: a in Table()[i].sparse ==>
      Table()[i].sparse[a] == if Table()[i].regType == HR && 2 <= a <= 5 then 1 else 0
    ensures Table()[i].factor != Some(0)
  {
    TableRecordNonEmpty(i);
    TableRecordValues(i);
    TableRecordFactor(i);
  }

  /** Every record of the table occupies exactly one address. */
  lemma TableRecordSingle(i: int)
    requires 0 <= i < |Table()|
    ensures Table()[i].sparse != map[]
    ensures forall a, b :: a in Table()[i].sparse && b in Table()[i].sparse ==> a == b
  {
    assert Entries[i].address in Table()[i].sparse;
  }

  lemma TableRecordFactor(i: int)
    requires 0 <= i < |Table()|
    ensures Table()[i].factor != Some(0)
  {
    assert Entries[i].factor != Some(0) by {
      assert i == 0 || i == 1 || i == 2 || i == 3 || i == 4 || i == 5 || i == 6 || i == 7 || i == 8 || i == 9 || i == 10 || i == 11 || i == 12 || i == 13 || i == 14 || i == 15 || i == 16 || i == 17 || i == 18 || i == 19 || i == 20 || i == 21 || i == 22 || i == 23 || i == 24;
    }
  }

  lemma TableRecordNonEmpty(i: int)
    requires 0 <= i < |Table()|
    ensures Table()[i].sparse != map[]
  {
    assert Entries[i].address in Table()[i].sparse;
  }

  lemma TableRecordValues(i: int)
    requires 0 <= i < |Table()|
    ensures forall a :: a in Table()[i].sparse ==>
      Table()[i].sparse[a] == if Table()[i].regType == HR && 2 <= a <= 5 then 1 else 0
  {
    var e := Entries[i];
    assert e.initial == if e.regType == HR && 2 <= e.address <= 5 then 1 else 0 by {
      assert i == 0 || i == 1 || i == 2 || i == 3 || i == 4 || i == 5 || i == 6 || i == 7 || i == 8 || i == 9 || i == 10 || i == 11 || i == 12 || i == 13 || i == 14 || i == 15 || i == 16 || i == 17 || i == 18 || i == 19 || i == 20 || i == 21 || i == 22 || i == 23 || i == 24;
    }
    assert Table()[i].sparse == map[e.address := e.initial];
  }

  /** Each slot of the table belongs to the record `Owner` names. */
  lemma TableOwner(i: int, a: int)
    requires 0 <= i < |Table()| && a in Table()[i].sparse
    ensures Owner(Table()[i].regType, a) == i
  {
    var e := Entries[i];
    assert Owner(e.regType, e.address) == i by {
      assert i == 0 || i == 1 || i == 2 || i == 3 || i == 4 || i == 5 || i == 6 || i == 7 || i == 8 || i == 9 || i == 10 || i == 11 || i == 12 || i == 13 || i == 14 || i == 15 || i == 16 || i == 17 || i == 18 || i == 19 || i == 20 || i == 21 || i == 22 || i == 23 || i == 24;
    }
    assert a == e.address;
  }

  /** No two records of the table share a slot. */
  lemma TableDisjoint()
    ensures DisjointSlots(Table())
  {
    forall i, j, a | 0 <= i < j < |Table()| && a in Table()[i].sparse && a in Table()[j].sparse
      ensures Table()[i].regType != Table()[j].regType
    {
      TableOwner(i, a);
      TableOwner(j, a);
    }
  }

  lemma TableNonZeroFactors()
    ensures NonZeroFactors(Table())
  {
    forall i | 0 <= i < |Table()| ensures Table()[i].factor != Some(0) {
      TableRecord(i);
    }
  }

  /** Before any write the averaging intervals, holding registers 2 to 5, read 1 and every other slot 0. */
  lemma InitialReads(t: RegType, a: int)
    ensures Read(Table(), t, a) == if t == HR && 2 <= a <= 5 then 1 else 0
  {
    match FindSlot(Table(), t, a)
    case Some(k) =>
      TableRecord(k);
    case None =>
      if t == HR && 2 <= a <= 5 {
        AveragingIntervalHeld(a);
      }
  }

  lemma AveragingIntervalHeld(a: int)
    requires 2 <= a <= 5
    ensures Holds(Table()[a + 17], HR, a)
  {
    assert a == 2 || a == 3 || a == 4 || a == 5;
  }

  /** The first record named `n` is the one at `k` when no earlier record has that name. */
  lemma FirstNamed(regs: seq<Register>, n: string, k: nat)
    requires k < |regs| && regs[k].name == n
    requires forall j :: 0 <= j < k ==> regs[j].name != n
    ensures FindByName(regs, n) == Some(k)
  {
  }

  /** The record of the absolute rain quantity: input register 48, factor 100. */
  lemma RainRecord()
    ensures FindByName(Table(), RainAbs) == Some(14)
    ensures Table()[14].regType == IR && 48 in Table()[14].sparse && Table()[14].factor == Some(100)
  {
    RainSlot();
    var t := Table();
    forall j | 0 <= j < 14 ensures t[j].name != RainAbs {
      NotRainBefore(j);
    }
    FirstNamed(t, RainAbs, 14);
  }

  lemma RainSlot()
    ensures Table()[14].name == RainAbs
    ensures Table()[14].regType == IR && 48 in Table()[14].sparse && Table()[14].factor == Some(100)
  {
  }

  lemma NotRainBefore(j: int)
    requires 0 <= j < 14
    ensures Table()[j].name != RainAbs
  {
    assert Entries[j].name != RainAbs by {
      if j < 7 {
        assert j == 0 || j == 1 || j == 2 || j == 3 || j == 4 || j == 5 || j == 6;
      } else {
        assert j == 7 || j == 8 || j == 9 || j == 10 || j == 11 || j == 12 || j == 13;
      }
    }
  }

  /** The two reset commands: holding registers 7 and 8. */
  lemma ResetRecords()
    ensures FindByName(Table(), ResetNames[0]) == Some(23)
    ensures FindByName(Table(), ResetNames[1]) == Some(24)
  {
    var t := Table();
    ResetSlots();
    forall j | 0 <= j < 23 ensures t[j].name != ResetNames[0] {
      NotResetRainBefore(j);
    }
    FirstNamed(t, ResetNames[0], 23);
    forall j | 0 <= j < 24 ensures t[j].name != ResetNames[1] {
      NotDeviceResetBefore(j);
    }
    FirstNamed(t, ResetNames[1], 24);
  }

  lemma ResetSlots()
    ensures Table()[23].name == ResetNames[0] && Table()[24].name == ResetNames[1]
  {
    assert Table()[23] == Load(Entries[23]) && Table()[24] == Load(Entries[24]);
  }

  lemma NotResetRainBefore(j: int)
    requires 0 <= j < 23
    ensures Table()[j].name != ResetNames[0]
  {
    assert Entries[j].name != ResetNames[0] by {
      if j < 12 {
        assert j == 0 || j == 1 || j == 2 || j == 3 || j == 4 || j == 5 || j == 6 || j == 7 || j == 8 || j == 9 || j == 10 || j == 11;
      } else {
        assert j == 12 || j == 13 || j == 14 || j == 15 || j == 16 || j == 17 || j == 18 || j == 19 || j == 20 || j == 21 || j == 22;
      }
    }
  }

  lemma NotDeviceResetBefore(j: int)
    requires 0 <= j < 24
    ensures Table()[j].name != ResetNames[1]
  {
    assert Entries[j].name != ResetNames[1] by {
      if j < 12 {
        assert j == 0 || j == 1 || j == 2 || j == 3 || j == 4 || j == 5 || j == 6 || j == 7 || j == 8 || j == 9 || j == 10 || j == 11;
      } else {
        assert j == 12 || j == 13 || j == 14 || j == 15 || j == 16 || j == 17 || j == 18 || j == 19 || j == 20 || j == 21 || j == 22 || j == 23;
      }
    }
  }

  // ---------------------------------------------------------------------------
  // Laws of the table as the simulator keeps it: its layout never changes.

  lemma LayoutOfTable(regs: seq<Register>)
    requires SameLayout(regs, Table())
    ensures DisjointSlots(regs) && NonZeroFactors(regs)
  {
    TableDisjoint();
    DisjointByLayout(regs, Table());
    forall i | 0 <= i < |regs| ensures regs[i].factor != Some(0) {
      TableRecord(i);
    }
  }

  /** For the name of every record `k` in the table, getting after setting returns the value set, and only it. */
  lemma SetThenGetInTable(regs: seq<Register>, k: int, v: int)
    requires SameLayout(regs, Table()) && 0 <= k < |Table()|
    ensures IsValueOf(AfterSet(regs, Table()[k].name, v), Table()[k].name, v)
    ensures forall r :: IsValueOf(AfterSet(regs, Table()[k].name, v), Table()[k].name, r) ==> r == v
  {
    var n := Table()[k].name;
    assert FindByName(Table(), n).Some?;
    var i := FindByName(Table(), n).value;
    TableDisjoint();
    TableNonZeroFactors();
    assert Entries[i].address in Table()[i].sparse;
    SetThenGetByLayout(regs, Table(), n, v, Entries[i].address);
  }

  /** `SetThenGet` for a table whose layout is that of another. */
  lemma SetThenGetByLayout(regs: seq<Register>, layout: seq<Register>, n: string, v: int, a: int)
    requires SameLayout(regs, layout) && DisjointSlots(layout) && NonZeroFactors(layout)
    requires FindByName(layout, n).Some? && a in layout[FindByName(layout, n).value].sparse
    ensures IsValueOf(AfterSet(regs, n, v), n, v)
    ensures forall r :: IsValueOf(AfterSet(regs, n, v), n, r) ==> r == v
  {
    DisjointByLayout(regs, layout);
    FindByNameByLayout(regs, layout, n);
    var i := FindByName(layout, n).value;
    assert SameShape(regs[i], layout[i]);
    assert NonZeroFactors(regs) by {
      assert forall j :: 0 <= j < |regs| ==> SameShape(regs[j], layout[j]);
    }
    GetAfterSet(regs, n, v, a);
    forall r | IsValueOf(AfterSet(regs, n, v), n, r) ensures r == v {
      SetThenGet(regs, n, v, r);
    }
  }

  /** Both reset commands also zero the absolute rain quantity, input register 48. */
  lemma ResetClearsRain(regs: seq<Register>, n: string, v: int)
    requires SameLayout(regs, Table())
    requires n in ResetNames
    ensures Read(AfterSet(regs, n, v), IR, 48) == 0
  {
    var t := Table();
    var written := SetByName(regs, n, v);
    RainIsNoReset();
    AfterSetReset(regs, n, v);
    SetByNameKeepsLayout(regs, n, v);
    LayoutOfTable(written);
    RainRecord();
    FindByNameByLayout(written, t, RainAbs);
    assert SameShape(written[14], t[14]);
    ReadAfterSetByName(written, RainAbs, 0, 14, 48);
  }

  /**
   * Input and holding registers are separate namespaces: input register 0
   * (Identification) and holding register 0 (Local Altitude) both exist and
   * a write to either leaves the other alone.
   */
  lemma RegisterTypesSeparate(regs: seq<Register>, v: int)
    requires SameLayout(regs, Table())
    ensures Read(Write(regs, IR, 0, v), IR, 0) == v
    ensures Read(Write(regs, IR, 0, v), HR, 0) == Read(regs, HR, 0)
    ensures Read(Write(regs, HR, 0, v), HR, 0) == v
    ensures Read(Write(regs, HR, 0, v), IR, 0) == Read(regs, IR, 0)
  {
    assert SameShape(regs[0], Table()[0]) && SameShape(regs[18], Table()[18]);
    assert Holds(regs[0], IR, 0) && Holds(regs[18], HR, 0);
    ReadAfterWrite(regs, IR, 0, v);
    ReadAfterWrite(regs, HR, 0, v);
    WriteFrame(regs, IR, 0, v, HR, 0);
    WriteFrame(regs, HR, 0, v, IR, 0);
  }

  /** A name that is not in the table, whatever its values, changes nothing when set. */
  lemma SetUnknownInTable(regs: seq<Register>, n: string, v: int)
    requires SameLayout(regs, Table())
    requires FindByName(Table(), n).None?
    ensures AfterSet(regs, n, v) == regs
  {
    ResetRecords();
    NotAResetName(Table(), n);
    FindByNameByLayout(regs, Table(), n);
    AfterSetUnknownName(regs, n, v);
  }

  /** A name missing from a table that has both reset commands is no reset command. */
  lemma NotAResetName(regs: seq<Register>, n: string)
    requires FindByName(regs, ResetNames[0]).Some? && FindByName(regs, ResetNames[1]).Some?
    requires FindByName(regs, n).None?
    ensures n !in ResetNames
  {
  }

  /**
   * Every record of the table has one address, so the value get_value returns
   * does not depend on the order in which it visits a record's addresses.
   */
  lemma ValueOfInTableUnique(regs: seq<Register>, n: string, r: int, r': int)
    requires SameLayout(regs, Table())
    requires IsValueOf(regs, n, r) && IsValueOf(regs, n, r')
    ensures r == r'
  {
    match FindByName(regs, n)
    case None =>
    case Some(i) =>
      var t := Table();
      assert SameShape(regs[i], t[i]);
      TableRecordSingle(i);
      TableRecordNonEmpty(i);
      assert forall a, b :: a in regs[i].sparse && b in regs[i].sparse ==> a == b;
  }
}
