/**
 * The identification word of a simulated Lufft smart weather sensor: input
 * register 0 holds the station-type code in its high byte and the software
 * version in its low byte.
 */
module StationId {

  /** Station-type codes of the UMB weather sensor models, keyed by model name. */
  const TypeCodes: map<string, int> := map[
    "WS100-UMB" := 1,
    "WS200-UMB" := 2,
    "WS300-UMB" := 3,
    "WS400-UMB" := 4,
    "WS500-UMB" := 5,
    "WS600-UMB" := 6,
    "WS700-UMB" := 7,
    "WS800-UMB" := 8,
    "WS301-UMB" := 13,
    "WS302-UMB" := 23,
    "WS303-UMB" := 33,
    "WS304-UMB" := 43,
    "WS310-UMB" := 93,
    "WS501-UMB" := 15,
    "WS502-UMB" := 25,
    "WS503-UMB" := 35,
    "WS504-UMB" := 45,
    "WS510-UMB" := 95,
    "WS401-UMB" := 14,
    "WS601-UMB" := 16
  ]

  /** The model and version the simulator announces when called without arguments. */
  const DefaultModel: string := "WS501-UMB"
  const DefaultVersion: int := 1

  /** Every station-type code fits in the high byte, with room to spare. */
  lemma CodesFitHighByte()
    ensures forall m :: m in TypeCodes ==> 0 <= TypeCodes[m] <= 95
  {
  }

  /** The station-type code of a model, 0 for a model that is not in the list. */
  function TypeCode(model: string): (c: int)
    ensures model in TypeCodes ==> c == TypeCodes[model]
    ensures model !in TypeCodes ==> c == 0
    ensures 0 <= c <= 95
  {
    CodesFitHighByte();
    if model in TypeCodes then TypeCodes[model] else 0
  }

  /** The low byte: the version itself when it fits in a byte, 0 otherwise. */
  function VersionByte(version: int): (b: int)
    ensures 0 <= b < 256
    ensures b == version <==> 0 <= version < 256
    ensures b != version ==> b == 0
  {
    if 0 <= version < 256 then version else 0
  }

  /** The identification word, packed with a shift and an or as the simulator does. */
  function IdentificationWord(model: string, version: int): (w: int)
    ensures 0 <= w <= 65535
    ensures w == TypeCode(model) * 256 + VersionByte(version)
    ensures w / 256 == TypeCode(model) && w % 256 == VersionByte(version)
  {
    var high := TypeCode(model);
    var low := VersionByte(version);
    assert Pow2(8) == 256;
    ShiftOrIsPacking(high, low, 8);
    BytesOfPacking(high, low);
    BitOr(ShiftLeft(high, 8), low)
  }

  lemma BytesOfPacking(high: int, low: int)
    requires 0 <= low < 256
    ensures (high * 256 + low) / 256 == high && (high * 256 + low) % 256 == low
  {
  }

  function Pow2(n: nat): nat
  {
    if n == 0 then 1 else 2 * Pow2(n - 1)
  }

  /** Python's `x << n` on a non-negative integer. */
  function ShiftLeft(x: nat, n: nat): nat
  {
    x * Pow2(n)
  }

  /** Python's `x | y` on non-negative integers, one bit at a time from the lowest. */
  function BitOr(x: nat, y: nat): nat
    decreases x + y
  {
    if x == 0 then y
    else if y == 0 then x
    else 2 * BitOr(x / 2, y / 2) + (if x % 2 == 1 || y % 2 == 1 then 1 else 0)
  }

  /** Or-ing a value below 2^n into a value shifted up by n bits adds it. */
  lemma {:induction false} ShiftOrIsPacking(high: nat, low: nat, n: nat)
    requires low < Pow2(n)
    ensures BitOr(ShiftLeft(high, n), low) == high * Pow2(n) + low
  {
    if high == 0 || low == 0 {
    } else {
      assert n > 0;
      var x := high * Pow2(n);
      assert x == 2 * (high * Pow2(n - 1));
      assert x / 2 == ShiftLeft(high, n - 1) && x % 2 == 0;
      ShiftOrIsPacking(high, low / 2, n - 1);
      assert BitOr(x, low) == 2 * BitOr(x / 2, low / 2) + low % 2;
    }
  }

  /** Splitting the word back into its two bytes gives the code and the version. */
  function SplitWord(w: int): (parts: (int, int))
    requires 0 <= w <= 65535
    ensures 0 <= parts.0 < 256 && 0 <= parts.1 < 256
    ensures parts.0 * 256 + parts.1 == w
  {
    (w / 256, w % 256)
  }

  lemma SplitIdentificationWord(model: string, version: int)
    ensures SplitWord(IdentificationWord(model, version)) == (TypeCode(model), VersionByte(version))
  {
  }

  /** With its default arguments the simulator reports WS501-UMB, version 1: 15 * 256 + 1. */
  lemma DefaultIdentification()
    ensures IdentificationWord(DefaultModel, DefaultVersion) == 3841
  {
  }
}
