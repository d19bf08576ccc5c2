/**
 * The simulator's live register table: one object whose records the raw and
 * scaled accessors search, and whose values they update in place.
 */
module LufftSimulator {
  import opened RegisterTable
  import StationId

  class Registers {
    /** The records, in table order; only their values ever change. */
    var regs: seq<Register>
    /** The records as loaded, whose names, types, addresses and factors `regs` keeps. */
    ghost var layout: seq<Register>

    ghost predicate Valid()
      reads this
    {
      SameLayout(regs, layout) && DisjointSlots(layout) && NonZeroFactors(layout)
    }

    /** The table as the simulator loads it. */
    constructor ()
      ensures Valid() && regs == Table() && layout == Table()
    {
      regs := Table();
      layout := Table();
      LayoutOfTable(Table());
    }

    /** Stores `value` in the first record of type `t` holding `address`; does nothing when there is none. */
    method WriteRegister(t: RegType, address: int, value: int)
      requires Valid()
      modifies this`regs
      ensures Valid()
      ensures regs == Write(old(regs), t, address, value)
    {
      var i := 0;
      while i < |regs| && !(regs[i].regType == t && address in regs[i].sparse)
        invariant 0 <= i <= |regs|
        invariant forall j :: 0 <= j < i ==> !Holds(regs[j], t, address)
      {
        i := i + 1;
      }
      if i < |regs| {
        regs := regs[i := regs[i].(sparse := regs[i].sparse[address := value])];
      }
      WriteKeepsLayout(old(regs), t, address, value);
    }

    /** The value of the first record of type `t` holding `address`, 0 when there is none. */
    method ReadRegister(t: RegType, address: int) returns (value: int)
      ensures value == Read(regs, t, address)
      ensures (forall j :: 0 <= j < |regs| ==> !Holds(regs[j], t, address)) ==> value == 0
    {
      value := 0;
      var i := 0;
      while i < |regs| && !(regs[i].regType == t && address in regs[i].sparse)
        invariant 0 <= i <= |regs|
        invariant forall j :: 0 <= j < i ==> !Holds(regs[j], t, address)
      {
        i := i + 1;
      }
      if i < |regs| {
        value := regs[i].sparse[address];
      }
    }

    /**
     * Sets parameter `name` to `value`: every address of the first record so
     * named receives the value times its factor; either reset command then
     * also sets the absolute rain quantity to 0.
     */
    method SetValue(name: string, value: int)
      requires Valid()
      modifies this`regs
      ensures Valid()
      ensures regs == AfterSet(old(regs), name, value)
      decreases if name in ResetNames then 1 else 0
    {
      var i := 0;
      while i < |regs| && regs[i].name != name
        invariant 0 <= i <= |regs|
        invariant forall j :: 0 <= j < i ==> regs[j].name != name
      {
        i := i + 1;
      }
      if i < |regs| {
        FirstNamed(regs, name, i);
        var reg := regs[i];
        var scaled := if reg.factor.Some? then value * reg.factor.value else value;
        WriteAddresses(reg.regType, reg.sparse.Keys, scaled);
      }
      ghost var written := regs;
      assert written == SetByName(old(regs), name, value);
      if name in ResetNames {
        RainIsNoReset();
        SetValue(RainAbs, 0);
        AfterSetReset(old(regs), name, value);
      }
    }

    /** The inner write loop of `SetValue`: `value` through `WriteRegister` at type `t`, each address in `keys`. */
    method WriteAddresses(t: RegType, keys: set<int>, value: int)
      requires Valid()
      modifies this`regs
      ensures Valid()
      ensures regs == WriteAll(old(regs), t, keys, value)
    {
      var todo := keys;
      ghost var done: set<int> := {};
      WriteAllNone(old(regs), t, value);
      while todo != {}
        invariant Valid()
        invariant todo + done == keys
        invariant regs == WriteAll(old(regs), t, done, value)
        decreases |todo|
      {
        var a := Pick(todo);
        WriteRegister(t, a, value);
        WriteAllStep(old(regs), t, done, a, value);
        done := done + {a};
        todo := todo - {a};
      }
    }

    /**
     * Gets parameter `name`: the raw value of the first record so named, read
     * through `ReadRegister` at its addresses (the last one read wins), then
     * floor-divided by an integer factor other than 1; 0 for an unknown name.
     */
    method GetValue(name: string) returns (value: int)
      requires Valid()
      ensures IsValueOf(regs, name, value)
      ensures FindByName(regs, name).None? ==> value == 0
    {
      DisjointByLayout(regs, layout);
      assert NonZeroFactors(regs) by {
        assert forall j :: 0 <= j < |regs| ==> SameShape(regs[j], layout[j]);
      }
      value := 0;
      var i := 0;
      while i < |regs| && regs[i].name != name
        invariant 0 <= i <= |regs|
        invariant forall j :: 0 <= j < i ==> regs[j].name != name
      {
        i := i + 1;
      }
      if i < |regs| {
        FirstNamed(regs, name, i);
        var reg := regs[i];
        value := ReadLast(reg.regType, reg.sparse.Keys);
        if reg.factor.Some? && reg.factor.value != 1 {
          value := FloorDiv(value, reg.factor.value);
        }
      }
    }

    /** The inner read loop of `GetValue`: the value at the last address of `keys` it visits, 0 for none. */
    method ReadLast(t: RegType, keys: set<int>) returns (value: int)
      ensures keys == {} ==> value == 0
      ensures keys != {} ==> exists a :: a in keys && value == Read(regs, t, a)
    {
      value := 0;
      var todo := keys;
      while todo != {}
        invariant todo <= keys
        invariant todo == keys ==> value == 0
        invariant todo != keys ==> exists a :: a in keys && value == Read(regs, t, a)
        decreases |todo|
      {
        var a := Pick(todo);
        value := ReadRegister(t, a);
        todo := todo - {a};
      }
    }
  }

  /** Some address of a non-empty set: the next key a dictionary walk visits, in an order left open. */
  method Pick(keys: set<int>) returns (a: int)
    requires keys != {}
    ensures a in keys
  {
    HasMember(keys);
    a :| a in keys;
  }

  lemma HasMember(keys: set<int>)
    requires keys != {}
    ensures exists a :: a in keys
  {
    if forall a :: a !in keys {
      assert false;
    }
  }

  /**
   * Each refresh first stores the identification word under "Identification";
   * afterwards input register 0 reads WS501-UMB, version 1: 3841.
   */
  lemma IdentificationAfterRefresh(regs: seq<Register>)
    requires SameLayout(regs, Table())
    ensures Read(AfterSet(regs, "Identification",
                 StationId.IdentificationWord(StationId.DefaultModel, StationId.DefaultVersion)), IR, 0) == 3841
  {
    var w := StationId.IdentificationWord(StationId.DefaultModel, StationId.DefaultVersion);
    StationId.DefaultIdentification();
    LayoutOfTable(regs);
    assert SameShape(regs[0], Table()[0]);
    FirstNamed(regs, "Identification", 0);
    ReadAfterSet(regs, "Identification", w, 0, 0);
  }
}
