# Lufft weather-station register table

A Dafny model of the in-memory Modbus register table kept by the simulated
Lufft WS501-UMB smart weather sensor (`modbus_sim/simulators/sim_weather_lufft.py`),
and proofs about it.

The simulator keeps a list of 25 records. Each record has:

- a parameter name;
- a register type (input or holding);
- a `sparse` dictionary from Modbus address to raw value;
- an optional integer scaling factor;
- an encoding tag.

Two layers of access sit on top of the list:

- **Raw access by register type and address.** `write_register` stores a value in the first record whose type matches and whose dictionary holds the address. `read_register` returns that value, or 0 when no record matches.
- **Scaled access by parameter name.** `set_value` multiplies by an integer factor and writes each address of the first record with that name. The two reset commands also clear the absolute rain quantity. `get_value` reads the record back and floor-divides by an integer factor other than 1.

`get_weatherstation_id` computes the identification word stored in input register 0: the station-type code in the high byte, the software version in the low byte.

The model has three modules:

- `StationId` (`station_id.dfy`) holds the identification word as pure functions. Python's `<<` and `|` on non-negative integers are written out: `|` is computed one bit at a time, and the lemma `ShiftOrIsPacking` proves that or-ing a byte into a shifted code is the same as `code * 256 + byte`.
- `RegisterTable` (`register_table.dfy`) holds the table as values:
  - the records, and the table the simulator starts from;
  - the search, read and write functions;
  - scaling, with Python 2's floor division `/` modelled by `FloorDiv` for both signs of the divisor;
  - `SetByName`/`AfterSet`, the closed-form effect of `set_value`;
  - `IsValueOf`, the values `get_value` may return;
  - the laws relating them: round trips, frame conditions, the reset rule, and the starting values.
- `LufftSimulator` (`lufft_simulator.dfy`) holds the live table as a class, `Registers`:
  - `regs` is the list of records that the methods update in place;
  - the ghost field `layout` is the list as loaded;
  - `Valid()` says that `regs` keeps the loaded layout (names, types, addresses, factors, encodings), that no two records share a type and address, and that no factor is 0.

  Each method runs the source's search loop and is proved against the `RegisterTable` function that specifies it.
  - `SetValue` calls `WriteAddresses`, which calls `WriteRegister` once per address. For the two reset commands, `SetValue` then calls itself for the rain reset, as the source does.
  - `GetValue` calls `ReadLast`, which calls `ReadRegister` once per address.

Values are mathematical integers.

## Model

| member | source | states |
|---|---|---|
| StationId.TypeCode | modbus_sim/simulators/sim_weather_lufft.py:178-204 | The high byte is the code listed for the model, or 0 when the model is not listed; it always lies in 0..95. |
| StationId.CodesFitHighByte | modbus_sim/simulators/sim_weather_lufft.py:178-199 | Every station-type code in the list lies in 0..95. |
| StationId.VersionByte | modbus_sim/simulators/sim_weather_lufft.py:205 | The low byte is the version exactly when the version lies in 0..255, and 0 otherwise. |
| StationId.ShiftOrIsPacking | modbus_sim/simulators/sim_weather_lufft.py:206 | For any `low < 2^n`, `(high << n) \| low` equals `high * 2^n + low`. |
| StationId.IdentificationWord | modbus_sim/simulators/sim_weather_lufft.py:169-207 | The word is `code * 256 + version byte`, lies in 0..65535, and its quotient and remainder by 256 are the code and the version byte. |
| StationId.SplitWord | modbus_sim/simulators/sim_weather_lufft.py:171 | Splitting a 16-bit word gives two bytes that recombine to the word. |
| StationId.SplitIdentificationWord | modbus_sim/simulators/sim_weather_lufft.py:171 | The high byte of the identification word is the station-type code and its low byte is the version byte. |
| StationId.DefaultIdentification | modbus_sim/simulators/sim_weather_lufft.py:169-207 | With the default arguments (WS501-UMB, version 1) the word is 3841. |
| RegisterTable.Table | modbus_sim/simulators/sim_weather_lufft.py:136-166 | The starting table. It holds the 25 records in source order. Each record has its name, register type, factor (none, 1, 10 or 100) and encoding tag, and one address with its starting value: 1 for holding registers 2-5, 0 everywhere else. |
| RegisterTable.Load | modbus_sim/simulators/sim_weather_lufft.py:136-166 | One written line as a record: a dictionary holding only its address, at its starting value. |
| RegisterTable.Read | modbus_sim/simulators/sim_weather_lufft.py:333-347 | `read_register`: the value in the slot of the first record whose type matches and whose addresses include the address, or 0 when no record holds that slot. |
| RegisterTable.Write | modbus_sim/simulators/sim_weather_lufft.py:315-330 | `write_register`: stores the value in that slot of the first matching record and nowhere else; when no record holds the slot, the table is unchanged. |
| RegisterTable.Scale | modbus_sim/simulators/sim_weather_lufft.py:307 | The value times the factor when the factor is an integer, otherwise the value itself. |
| RegisterTable.Unscale | modbus_sim/simulators/sim_weather_lufft.py:363-364 | The raw value floor-divided by an integer factor other than 1; otherwise the raw value itself. |
| RegisterTable.SetByName | modbus_sim/simulators/sim_weather_lufft.py:305-310 | The write loop of `set_value`: for the first record with the name, stores the scaled value at each of its addresses through `Write`'s first-match rule. An unknown name changes nothing. |
| RegisterTable.AfterSet | modbus_sim/simulators/sim_weather_lufft.py:298-312 | `set_value`: `SetByName`, then, for "Reset Abs. Rain" and "Device Reset" only, `AfterSet` of "Precipitation abs mm" with 0. |
| RegisterTable.IsValueOf | modbus_sim/simulators/sim_weather_lufft.py:350-366 | The results `get_value` can give. For an unknown name, 0. Otherwise, for the first record with the name, `Unscale` of the raw value at one of its addresses (`Unscale` of 0 when the record has none). |
| RegisterTable.FindSlot | modbus_sim/simulators/sim_weather_lufft.py:323-324 | The result is the first record whose type matches and whose addresses include the address; it is none exactly when no record holds the slot. |
| RegisterTable.FindSlotByLayout | modbus_sim/simulators/sim_weather_lufft.py:323-324 | The search depends only on types and addresses, not on stored values. |
| RegisterTable.WriteKeepsLayout | modbus_sim/simulators/sim_weather_lufft.py:329 | A write changes values only: names, types, addresses, factors and encodings stay as they were. |
| RegisterTable.ReadAfterWrite | modbus_sim/simulators/sim_weather_lufft.py:323-346 | For a type and address the table holds, reading after a write returns the written value. |
| RegisterTable.WriteFrame | modbus_sim/simulators/sim_weather_lufft.py:323-330 | A write leaves every other type and address reading as before. |
| RegisterTable.WriteChangesOneSlot | modbus_sim/simulators/sim_weather_lufft.py:323-330 | A write changes exactly one stored value, the one in the slot that was found; when no record holds the type and address, the table is unchanged. |
| RegisterTable.ReadMissing | modbus_sim/simulators/sim_weather_lufft.py:342-347 | A type and address that no record holds reads 0. |
| RegisterTable.FloorDiv | modbus_sim/simulators/sim_weather_lufft.py:364 | Python 2 integer `/`: the quotient is rounded towards minus infinity, for positive and for negative divisors. |
| RegisterTable.FloorDivExact | modbus_sim/simulators/sim_weather_lufft.py:364 | Floor-dividing `v * d` by a non-zero `d` gives back `v`. |
| RegisterTable.UnscaleScale | modbus_sim/simulators/sim_weather_lufft.py:307-364 | For every factor except 0, reading back a scaled value (multiplied by an integer factor on the way in, divided on the way out unless the factor is 1) gives the value itself. |
| RegisterTable.FindByName | modbus_sim/simulators/sim_weather_lufft.py:305-306 | The result is the first record with the name; it is none exactly when no record has the name. |
| RegisterTable.FindByNameByLayout | modbus_sim/simulators/sim_weather_lufft.py:305-306 | The lookup by name depends only on the layout, not on stored values. |
| RegisterTable.WriteAll | modbus_sim/simulators/sim_weather_lufft.py:308-309 | Writing a set of addresses keeps the number of records. |
| RegisterTable.WriteAllNone | modbus_sim/simulators/sim_weather_lufft.py:308-309 | Writing no address changes nothing. |
| RegisterTable.WriteAllStep | modbus_sim/simulators/sim_weather_lufft.py:308-309 | One more `write_register` extends the set of written addresses by that one address, whatever order the addresses come in. |
| RegisterTable.WriteAllKeepsLayout | modbus_sim/simulators/sim_weather_lufft.py:308-309 | Writing a record's addresses changes values only. |
| RegisterTable.ReadAfterWriteAll | modbus_sim/simulators/sim_weather_lufft.py:308-309 | Every written address that the table holds then reads the written value. |
| RegisterTable.WriteAllFrame | modbus_sim/simulators/sim_weather_lufft.py:308-309 | Addresses not written, and slots of other types, read as before. |
| RegisterTable.SetByNameKeepsLayout | modbus_sim/simulators/sim_weather_lufft.py:305-310 | The named write changes values only. |
| RegisterTable.AfterSetReset | modbus_sim/simulators/sim_weather_lufft.py:311-312 | An unfolding step of `AfterSet`, not a separate law: for a reset command, `set_value` is the named write followed by setting the absolute rain quantity to 0. |
| RegisterTable.AfterSetKeepsLayout | modbus_sim/simulators/sim_weather_lufft.py:298-312 | `set_value`, including the rain reset, changes values only. |
| RegisterTable.AfterSetUnknownName | modbus_sim/simulators/sim_weather_lufft.py:305-312 | Setting a name that no record has and that is not a reset command leaves the table unchanged. |
| RegisterTable.ReadAfterSetByName | modbus_sim/simulators/sim_weather_lufft.py:305-310 | After the named write, every address of the record reads the value times its integer factor, or the value itself when there is no factor. |
| RegisterTable.SetByNameOtherRecord | modbus_sim/simulators/sim_weather_lufft.py:311-312 | When no two records share a slot, the rain reset leaves the slots of every other record unchanged. |
| RegisterTable.ReadAfterSet | modbus_sim/simulators/sim_weather_lufft.py:298-312 | After `set_value`, including any rain reset, every address of the named record reads its scaled value. |
| RegisterTable.RainIsNoReset | modbus_sim/simulators/sim_weather_lufft.py:311-312 | "Precipitation abs mm" is not a reset command, so the recursive reset call ends after one level. |
| RegisterTable.SetThenGet | modbus_sim/simulators/sim_weather_lufft.py:298-366 | When no two records share a slot and no factor is 0, any value `get_value` may return after `set_value(n, v)` is `v`, for a record with at least one address. |
| RegisterTable.GetAfterSet | modbus_sim/simulators/sim_weather_lufft.py:298-366 | When no two records share a slot and no factor is 0, `v` is a value `get_value` may return after `set_value(n, v)`, for a record with an address. |
| RegisterTable.TableRecord | modbus_sim/simulators/sim_weather_lufft.py:136-166 | Every record of the starting table has an address, starts at 1 for holding registers 2-5 and at 0 everywhere else, and has a factor other than 0. |
| RegisterTable.TableRecordSingle | modbus_sim/simulators/sim_weather_lufft.py:136-166 | Every record of the starting table occupies exactly one address. |
| RegisterTable.TableOwner | modbus_sim/simulators/sim_weather_lufft.py:136-166 | Each slot of the table belongs to one record, the one `Owner` names for its type and address. |
| RegisterTable.TableDisjoint | modbus_sim/simulators/sim_weather_lufft.py:136-166 | No two records of the table share a type and address. |
| RegisterTable.TableNonZeroFactors | modbus_sim/simulators/sim_weather_lufft.py:136-166 | No record of the table has factor 0. |
| RegisterTable.LayoutOfTable | modbus_sim/simulators/sim_weather_lufft.py:136-166 | Every table with the starting layout has disjoint slots and non-zero factors. |
| RegisterTable.InitialReads | modbus_sim/simulators/sim_weather_lufft.py:160-163 | Before any write, holding registers 2-5 (the averaging intervals) read 1, and every other type and address reads 0. |
| RegisterTable.AveragingIntervalHeld | modbus_sim/simulators/sim_weather_lufft.py:160-163 | Holding registers 2-5 are held by records 19-22. |
| RegisterTable.FirstNamed | modbus_sim/simulators/sim_weather_lufft.py:305-306 | The first record with a name is found by the lookup. |
| RegisterTable.RainRecord | modbus_sim/simulators/sim_weather_lufft.py:153 | "Precipitation abs mm" is record 14: input register 48, factor 100. |
| RegisterTable.ResetRecords | modbus_sim/simulators/sim_weather_lufft.py:164-165 | "Reset Abs. Rain" and "Device Reset" are records 23 and 24. |
| RegisterTable.SetThenGetByLayout | modbus_sim/simulators/sim_weather_lufft.py:298-366 | For any table whose layout has disjoint slots and non-zero factors, `v` is a value `get_value` may return after `set_value(n, v)`, and the only one. |
| RegisterTable.SetThenGetInTable | modbus_sim/simulators/sim_weather_lufft.py:298-366 | For the name `n` of every record in the table and every integer `v`, whatever the stored values, `get_value` after `set_value(n, v)` can return `v` and nothing else. |
| RegisterTable.ResetClearsRain | modbus_sim/simulators/sim_weather_lufft.py:311-312 | After `set_value` on "Reset Abs. Rain" or "Device Reset", input register 48 reads 0. |
| RegisterTable.RegisterTypesSeparate | modbus_sim/simulators/sim_weather_lufft.py:137-159 | Input register 0 (Identification) and holding register 0 (Local Altitude) are separate: a write to either reads back and leaves the other unchanged. |
| RegisterTable.NotAResetName | modbus_sim/simulators/sim_weather_lufft.py:311 | A name missing from a table that holds both reset commands is not a reset command. |
| RegisterTable.SetUnknownInTable | modbus_sim/simulators/sim_weather_lufft.py:305-312 | Setting a name that the table does not have changes nothing. |
| RegisterTable.ValueOfInTableUnique | modbus_sim/simulators/sim_weather_lufft.py:361-362 | Every record of the table has one address, so `get_value`'s result does not depend on the order in which it visits addresses. |
| LufftSimulator.Registers.constructor | modbus_sim/simulators/sim_weather_lufft.py:136-166 | The live table starts as the table as written, satisfying the class invariant. |
| LufftSimulator.Registers.WriteRegister | modbus_sim/simulators/sim_weather_lufft.py:315-330 | The search-and-store loop leaves the table equal to `Write` of the old table, and keeps the invariant. |
| LufftSimulator.Registers.ReadRegister | modbus_sim/simulators/sim_weather_lufft.py:333-347 | The search loop returns `Read` of the table, which is 0 when no record holds the slot; the method changes nothing. |
| LufftSimulator.Registers.WriteAddresses | modbus_sim/simulators/sim_weather_lufft.py:308-309 | Writing each address of a set, in any order, leaves the table equal to `WriteAll` of the old table. |
| LufftSimulator.Registers.SetValue | modbus_sim/simulators/sim_weather_lufft.py:298-312 | `set_value`, with its recursive rain reset, leaves the table equal to `AfterSet` of the old table, and keeps the invariant. |
| LufftSimulator.Registers.ReadLast | modbus_sim/simulators/sim_weather_lufft.py:361-362 | The read loop returns 0 for no addresses, and otherwise the raw value at one of the addresses. |
| LufftSimulator.Registers.GetValue | modbus_sim/simulators/sim_weather_lufft.py:350-366 | The result is one of the values `IsValueOf` allows: 0 for an unknown name, otherwise the raw value at one of the record's addresses, floor-divided by an integer factor other than 1. |
| LufftSimulator.IdentificationAfterRefresh | modbus_sim/simulators/sim_weather_lufft.py:397 | After the refresh stores the default identification word, input register 0 reads 3841. |

## Left out

- `get_weather` (lines 210-295): HTTP queries to OpenWeatherMap, JSON decoding, and floating-point unit conversions with `round`. These are network I/O and floating point.
- `simulate` (lines 369-441): the wall-clock refresh loop with `time.sleep`, logging, the floating-point dew-point formula, rain accumulation, and the restart on exception. Only its first step is modelled, the identification refresh at line 397 (`IdentificationAfterRefresh`). `SetUnknownInTable` shows that its write of "Air Temperature F (act)" at line 403, a name the table lacks, changes nothing.
- `modbus_sim/modbus_sim.py`: the bridge to the pymodbus server, argument parsing, serial-port probing and the timer thread. It rests on a library that is not part of this model. `setup.py` is packaging metadata.
- Float values and the `int()`/`float()` conversions `write_register` applies by encoding tag (lines 325-328). Values are integers, for which `int()` changes nothing; the encoding tag is carried but has no effect.
- LufftSimulator.Registers.GetValue: returns an integer. The source wraps the quotient in `float()` at line 364. That gives the same number only while the quotient's magnitude is at most 2^53. Larger quotients are rounded to the nearest float. Quotients beyond the float range raise OverflowError. None of these three cases is modelled, so `SetThenGetInTable`'s "every integer `v`" matches the source only while the quotient `v` stays within 2^53 in magnitude, for records whose factor is an integer other than 1.
- LufftSimulator.Registers.GetValue: when a record has several addresses, it reads from one address chosen by Python 2's dictionary order. That order is not modelled, so the contract only says "one of the addresses". `ValueOfInTableUnique` shows that this makes no difference for the table as written.
- LufftSimulator.Registers.ReadLast: the order in which it visits a record's addresses is Python 2's dictionary order, which is not modelled. Its contract says only that a non-empty set of addresses gives the raw value at one of them, not which one.
