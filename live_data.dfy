/**
 * The live-data screen's PID selection and the helpers that turn a decode
 * result into something to display. The screen keeps the PIDs it polls in
 * two structures that must agree: a dictionary from command to its display
 * item, and the list of commands in the order they are requested.
 */
module LiveData {
  import Wrappers

  /**
   * Service 01 PIDs. The command catalog is not part of this model: only the
   * two PIDs the screen starts with are named, every other PID is a code.
   */
  datatype Mode1PID = Rpm | Speed | OtherPID(code: nat)

  /** A catalog command, used here only as a dictionary key and list element. */
  datatype OBDCommand = Mode1(pid: Mode1PID) | OtherCommand(key: nat)

  /** The gauge style a data item is shown with. */
  datatype GaugeType = GaugeType1 | GaugeType2 | OtherGauge(index: nat)

  /** One timestamped sample of a PID; the time stamp is an abstract instant. */
  datatype PIDMeasurement = PIDMeasurement(time: int, value: real)

  /** What the screen shows for one requested command. */
  datatype DataItem = DataItem(
    command: OBDCommand,
    value: real,
    unit: Wrappers.Option<string>,
    selectedGauge: Wrappers.Option<GaugeType>,
    measurements: seq<PIDMeasurement>)

  /**
   * `DataItem(command:selectedGauge:)` with the remaining initialiser
   * arguments left at their defaults: value 0, no unit, no samples.
   */
  function NewDataItem(command: OBDCommand, selectedGauge: Wrappers.Option<GaugeType>): (item: DataItem)
    ensures item.command == command && item.selectedGauge == selectedGauge
    ensures item.value == 0.0 && item.unit.None? && item.measurements == []
  {
    DataItem(command, 0.0, Wrappers.None, selectedGauge, [])
  }

  /** The most commands the screen requests at once. */
  const MaxRequestedPIDs: nat := 6

  /** The two structures of the screen, `data` and `order`, as one value. */
  datatype Selection = Selection(data: map<OBDCommand, DataItem>, order: seq<OBDCommand>)

  predicate NoDuplicates(xs: seq<OBDCommand>)
  {
    forall i, j :: 0 <= i < j < |xs| ==> xs[i] != xs[j]
  }

  /**
   * The two structures agree: the keys of `data` are the elements of
   * `order`, `order` lists no command twice, and each item belongs to its key.
   */
  predicate InSync(s: Selection)
  {
    (forall c :: c in s.data ==> c in s.order) &&
    (forall c :: c in s.order ==> c in s.data) &&
    NoDuplicates(s.order) &&
    (forall c :: c in s.data ==> s.data[c].command == c)
  }

  /** `firstIndex(of:)`: the position of the first occurrence of `x`, if any. */
  function FirstIndex(xs: seq<OBDCommand>, x: OBDCommand): (r: Wrappers.Option<nat>)
    ensures r.None? <==> x !in xs
    ensures r.Some? ==> r.value < |xs| && xs[r.value] == x && x !in xs[..r.value]
  {
    if xs == [] then Wrappers.None
    else if xs[0] == x then Wrappers.Some(0)
    else
      match FirstIndex(xs[1..], x)
      case None => Wrappers.None
      case Some(i) =>
        assert xs[..i + 1] == [xs[0]] + xs[1..][..i];
        Wrappers.Some(i + 1)
  }

  /**
   * `remove(at: i)`: the list without its element at position `i`; the
   * elements before it stay, the later ones move one place to the front.
   */
  function RemoveAt(xs: seq<OBDCommand>, i: nat): (r: seq<OBDCommand>)
    requires i < |xs|
    ensures |r| == |xs| - 1
    ensures forall k :: 0 <= k < i ==> r[k] == xs[k]
    ensures forall k :: i <= k < |xs| - 1 ==> r[k] == xs[k + 1]
    ensures multiset(r) + multiset{xs[i]} == multiset(xs)
  {
    assert xs == xs[..i] + [xs[i]] + xs[i + 1..];
    xs[..i] + xs[i + 1..]
  }

  /**
   * `order.remove(at: order.firstIndex(of: x))`, doing nothing when `x` is
   * absent: the first copy of `x` goes, if there is one, and the other
   * elements keep their order.
   */
  function RemoveFirst(xs: seq<OBDCommand>, x: OBDCommand): (r: seq<OBDCommand>)
    ensures x !in xs ==> r == xs
    ensures x in xs ==> |r| == |xs| - 1
    ensures x in xs ==> exists i :: 0 <= i < |xs| && xs[i] == x && x !in xs[..i] && r == xs[..i] + xs[i + 1..]
    ensures multiset(r) == multiset(xs) - multiset{x}
  {
    match FirstIndex(xs, x)
    case Some(i) => RemoveAt(xs, i)
    case None => xs
  }

  /**
   * What `addPIDToRequest(pid)` does to the selection: below the cap it
   * toggles whether `pid` is a key of `data`, and no other key changes.
   */
  function AddPID(s: Selection, pid: OBDCommand): (t: Selection)
    ensures |s.order| >= MaxRequestedPIDs ==> t == s
    ensures |s.order| < MaxRequestedPIDs ==> (pid in t.data <==> pid !in s.data)
    ensures forall c :: c != pid ==> (c in t.data <==> c in s.data)
  {
    if |s.order| >= MaxRequestedPIDs then s
    else if pid !in s.data then
      Selection(s.data[pid := NewDataItem(pid, Wrappers.Some(GaugeType1))], s.order + [pid])
    else
      Selection(s.data - {pid}, RemoveFirst(s.order, pid))
  }

  /** The selection the screen starts with when nothing was saved: RPM, then speed. */
  function DefaultSelection(): (s: Selection)
    ensures InSync(s)
    ensures s.order == [Mode1(Rpm), Mode1(Speed)]
    ensures s.data[Mode1(Rpm)] == NewDataItem(Mode1(Rpm), Wrappers.Some(GaugeType1))
    ensures s.data[Mode1(Speed)] == NewDataItem(Mode1(Speed), Wrappers.Some(GaugeType2))
  {
    Selection(
      map[Mode1(Rpm) := NewDataItem(Mode1(Rpm), Wrappers.Some(GaugeType1)),
          Mode1(Speed) := NewDataItem(Mode1(Speed), Wrappers.Some(GaugeType2))],
      [Mode1(Rpm), Mode1(Speed)])
  }

  /**
   * The guard: with six or more commands selected nothing changes, not even
   * a command that is already selected can be removed.
   */
  lemma AddPIDWhenFull(s: Selection, pid: OBDCommand)
    requires |s.order| >= MaxRequestedPIDs
    ensures AddPID(s, pid) == s
  {
  }

  /**
   * Selecting a new command adds exactly that key with a fresh item shown on
   * the first gauge, appends it to `order`, and changes no other entry.
   */
  lemma AddPIDAddsAbsent(s: Selection, pid: OBDCommand)
    requires |s.order| < MaxRequestedPIDs && pid !in s.data
    ensures AddPID(s, pid).data.Keys == s.data.Keys + {pid}
    ensures AddPID(s, pid).data[pid] == NewDataItem(pid, Wrappers.Some(GaugeType1))
    ensures forall c :: c in s.data ==> AddPID(s, pid).data[c] == s.data[c]
    ensures AddPID(s, pid).order == s.order + [pid]
  {
  }

  /** Removing position `i` of a list without duplicates leaves no duplicates and drops only `xs[i]`. */
  lemma RemoveAtOfDistinct(xs: seq<OBDCommand>, i: nat)
    requires i < |xs| && NoDuplicates(xs)
    ensures NoDuplicates(RemoveAt(xs, i))
    ensures forall c :: c in RemoveAt(xs, i) <==> c in xs && c != xs[i]
  {
    var r := RemoveAt(xs, i);
    forall a, b | 0 <= a < b < |r| ensures r[a] != r[b] {
      assert r[a] == xs[if a < i then a else a + 1];
      assert r[b] == xs[if b < i then b else b + 1];
    }
    forall c ensures c in r <==> c in xs && c != xs[i] {
      if c in r {
        var k :| 0 <= k < |r| && r[k] == c;
        assert c == xs[if k < i then k else k + 1];
      }
      if c in xs && c != xs[i] {
        var k :| 0 <= k < |xs| && xs[k] == c;
        assert r[if k < i then k else k - 1] == c;
      }
    }
  }

  /** Removing `x` from a list without duplicates leaves the rest, in their order, and no `x`. */
  lemma RemoveFirstOfDistinct(xs: seq<OBDCommand>, x: OBDCommand)
    requires NoDuplicates(xs) && x in xs
    ensures exists i :: 0 <= i < |xs| && xs[i] == x && RemoveFirst(xs, x) == RemoveAt(xs, i)
    ensures |RemoveFirst(xs, x)| == |xs| - 1
    ensures NoDuplicates(RemoveFirst(xs, x))
    ensures forall c :: c in RemoveFirst(xs, x) <==> c in xs && c != x
  {
    var i := FirstIndex(xs, x).value;
    RemoveAtOfDistinct(xs, i);
  }

  /**
   * Deselecting a command removes its key and its occurrence in `order`,
   * keeps the other entries and their relative order, and leaves their items unchanged.
   */
  lemma AddPIDRemovesPresent(s: Selection, pid: OBDCommand)
    requires InSync(s) && |s.order| < MaxRequestedPIDs && pid in s.data
    ensures AddPID(s, pid).data.Keys == s.data.Keys - {pid}
    ensures forall c :: c in AddPID(s, pid).data ==> AddPID(s, pid).data[c] == s.data[c]
    ensures pid !in AddPID(s, pid).order
    ensures exists i :: 0 <= i < |s.order| && s.order[i] == pid &&
                        AddPID(s, pid).order == RemoveAt(s.order, i)
  {
    RemoveFirstOfDistinct(s.order, pid);
  }

  /** `addPIDToRequest` keeps `data` and `order` in agreement. */
  lemma AddPIDPreservesInSync(s: Selection, pid: OBDCommand)
    requires InSync(s)
    ensures InSync(AddPID(s, pid))
  {
    var t := AddPID(s, pid);
    if |s.order| < MaxRequestedPIDs {
      if pid !in s.data {
        assert pid !in s.order;
        forall i, j | 0 <= i < j < |t.order| ensures t.order[i] != t.order[j] {
          if j == |s.order| {
            assert s.order[i] in s.order;
          }
        }
      } else {
        RemoveFirstOfDistinct(s.order, pid);
      }
    }
  }

  /** `addPIDToRequest` never takes the list past six commands, and grows it by at most one. */
  lemma AddPIDBounded(s: Selection, pid: OBDCommand)
    ensures |s.order| <= MaxRequestedPIDs ==> |AddPID(s, pid).order| <= MaxRequestedPIDs
    ensures |AddPID(s, pid).order| <= |s.order| + 1
  {
    if |s.order| < MaxRequestedPIDs && pid in s.data {
      match FirstIndex(s.order, pid)
      case Some(i) => assert |RemoveFirst(s.order, pid)| == |s.order| - 1;
      case None =>
    }
  }

  /**
   * Toggling a command that is not selected twice, with room for it, gives
   * back exactly the selection it started from.
   */
  lemma AddPIDTwiceRestoresAbsent(s: Selection, pid: OBDCommand)
    requires InSync(s) && |s.order| <= MaxRequestedPIDs - 2 && pid !in s.data
    ensures AddPID(AddPID(s, pid), pid) == s
  {
    var t := AddPID(s, pid);
    assert t.order == s.order + [pid];
    assert pid !in s.order;
    assert FirstIndex(t.order, pid) == Wrappers.Some(|s.order|);
    assert RemoveFirst(t.order, pid) == s.order;
    assert t.data - {pid} == s.data;
  }

  /**
   * Toggling any command twice, with room for it, restores the key set and
   * the multiset of commands in `order`; a command that was selected ends up
   * last in `order`, with a fresh item.
   */
  lemma AddPIDTwiceRestoresKeySet(s: Selection, pid: OBDCommand)
    requires InSync(s) && |s.order| <= MaxRequestedPIDs - 2
    ensures AddPID(AddPID(s, pid), pid).data.Keys == s.data.Keys
    ensures multiset(AddPID(AddPID(s, pid), pid).order) == multiset(s.order)
    ensures pid in s.data ==>
              AddPID(AddPID(s, pid), pid).order == RemoveFirst(s.order, pid) + [pid] &&
              AddPID(AddPID(s, pid), pid).data[pid] == NewDataItem(pid, Wrappers.Some(GaugeType1))
  {
    if pid !in s.data {
      AddPIDTwiceRestoresAbsent(s, pid);
    } else {
      var t := Selection(s.data - {pid}, RemoveFirst(s.order, pid));
      assert AddPID(s, pid) == t;
      assert pid in s.order;
      var u := Selection(t.data[pid := NewDataItem(pid, Wrappers.Some(GaugeType1))], t.order + [pid]);
      assert AddPID(t, pid) == u;
      assert u.data.Keys == s.data.Keys;
      assert multiset(u.order) == multiset(t.order) + multiset{pid};
    }
  }

  /**
   * Toggling a selected command twice does not in general give back `order`:
   * from the default selection, toggling RPM twice moves it behind speed.
   */
  lemma AddPIDTwiceReordersPresent()
    ensures AddPID(AddPID(DefaultSelection(), Mode1(Rpm)), Mode1(Rpm)).order == [Mode1(Speed), Mode1(Rpm)]
  {
    var t := Selection(DefaultSelection().data - {Mode1(Rpm)}, [Mode1(Speed)]);
    assert FirstIndex([Mode1(Rpm), Mode1(Speed)], Mode1(Rpm)) == Wrappers.Some(0);
    assert AddPID(DefaultSelection(), Mode1(Rpm)) == t;
    assert AddPID(t, Mode1(Rpm)).order == [Mode1(Speed), Mode1(Rpm)];
  }

  /** The view model's selection state; polling, timers and persistence are not modelled. */
  class LiveDataViewModel {
    var data: map<OBDCommand, DataItem>
    var order: seq<OBDCommand>

    /** The two fields as one value. */
    function Selected(): (s: Selection)
      reads this
    {
      Selection(data, order)
    }

    ghost predicate Valid()
      reads this
    {
      InSync(Selected())
    }

    /** The default branch of `init` (no saved items): RPM on gauge 1, then speed on gauge 2. */
    constructor ()
      ensures Valid()
      ensures Selected() == DefaultSelection()
    {
      data := map[];
      order := [];
      new;
      data := data[Mode1(Rpm) := NewDataItem(Mode1(Rpm), Wrappers.Some(GaugeType1))];
      data := data[Mode1(Speed) := NewDataItem(Mode1(Speed), Wrappers.Some(GaugeType2))];
      order := order + [Mode1(Rpm)];
      order := order + [Mode1(Speed)];
    }

    /**
     * `addPIDToRequest`: below six selected commands, select `pid` if it is
     * not selected and deselect it if it is; otherwise do nothing.
     */
    method AddPIDToRequest(pid: OBDCommand)
      modifies this
      ensures Selected() == AddPID(old(Selected()), pid)
      ensures old(Valid()) ==> Valid()
      ensures |old(order)| <= MaxRequestedPIDs ==> |order| <= MaxRequestedPIDs
    {
      ghost var before := Selected();
      if |order| >= MaxRequestedPIDs {
        return;
      }
      if pid !in data {
        data := data[pid := NewDataItem(pid, Wrappers.Some(GaugeType1))];
        order := order + [pid];
      } else {
        data := data - {pid};
        var index := FirstIndex(order, pid);
        if index.Some? {
          order := RemoveAt(order, index.value);
        }
      }
      AddPIDBounded(before, pid);
      if InSync(before) {
        AddPIDPreservesInSync(before, pid);
      }
    }
  }

  /** Foundation's `Unit` of a measurement; only the fallback unit of the helpers below is named, any other is its symbol. */
  datatype MeasureUnit = KilometersPerHour | OtherUnit(unitSymbol: string)

  /** `unit.symbol`: the symbol a unit is printed with, "km/h" for kilometres per hour. */
  function Symbol(u: MeasureUnit): (s: string)
    ensures u.KilometersPerHour? ==> s == "km/h"
    ensures u.OtherUnit? ==> s == u.unitSymbol
  {
    match u
    case KilometersPerHour => "km/h"
    case OtherUnit(s) => s
  }

  /** A value with its unit. */
  datatype Measurement = Measurement(value: real, unit: MeasureUnit)

  /**
   * The decoder's result for one command; `OtherResult` stands for any case
   * that the helpers below handle in their `default` branch.
   */
  datatype OBDDecodeResult =
    | StringResult(text: string)
    | MeasurementResult(measurement: Measurement)
    | NoResult
    | OtherResult(tag: nat)

  /** What `decodeToMeasurement` falls back to: zero kilometres per hour. */
  const ZeroSpeed: Measurement := Measurement(0.0, KilometersPerHour)

  /**
   * `decodeToMeasurement`: the measurement a result carries, or zero km/h for
   * any other result; it never returns nil.
   */
  function DecodeToMeasurement(result: OBDDecodeResult): (m: Wrappers.Option<Measurement>)
    ensures m.Some?
    ensures result.MeasurementResult? ==> m.value == result.measurement
    ensures !result.MeasurementResult? ==> m.value == ZeroSpeed
  {
    match result
    case MeasurementResult(value) => Wrappers.Some(value)
    case _ => Wrappers.Some(Measurement(0.0, KilometersPerHour))
  }

  /**
   * `decodeMeasurementToDouble`: 0 for nil and for results without a value,
   * the measurement's value, or the parsed text of a string result (0 when
   * it does not parse). `parseDouble` stands for Swift's `Double(String)`.
   */
  function DecodeMeasurementToDouble(measurement: Wrappers.Option<OBDDecodeResult>,
                                     parseDouble: string -> Wrappers.Option<real>): (d: real)
    ensures measurement.None? ==> d == 0.0
    ensures measurement.Some? && measurement.value.MeasurementResult? ==>
              d == measurement.value.measurement.value
    ensures measurement.Some? && measurement.value.StringResult? ==>
              (parseDouble(measurement.value.text).Some? ==> d == parseDouble(measurement.value.text).value) &&
              (parseDouble(measurement.value.text).None? ==> d == 0.0)
    ensures measurement.Some? && (measurement.value.NoResult? || measurement.value.OtherResult?) ==> d == 0.0
  {
    match measurement
    case None => 0.0
    case Some(result) =>
      match result
      case StringResult(value) =>
        (match parseDouble(value) case Some(x) => x case None => 0.0)
      case MeasurementResult(value) => value.value
      case _ => 0.0
  }

  /**
   * `decodeMeasurementToString`: "N/A" for nil, the text of a string result,
   * the value and unit symbol of a measurement, and "No Result" otherwise.
   * `formatDouble` stands for Swift's printing of a `Double`.
   */
  function DecodeMeasurementToString(measurement: Wrappers.Option<OBDDecodeResult>,
                                     formatDouble: real -> string): (s: string)
    ensures measurement.None? ==> s == "N/A"
    ensures measurement.Some? && measurement.value.StringResult? ==> s == measurement.value.text
    ensures measurement.Some? && measurement.value.MeasurementResult? ==>
              s == formatDouble(measurement.value.measurement.value) + " " + Symbol(measurement.value.measurement.unit)
    ensures measurement.Some? && (measurement.value.NoResult? || measurement.value.OtherResult?) ==>
              s == "No Result"
  {
    match measurement
    case None => "N/A"
    case Some(result) =>
      match result
      case StringResult(value) => value
      case MeasurementResult(value) => formatDouble(value.value) + " " + Symbol(value.unit)
      case NoResult => "No Result"
      case _ => "No Result"
  }

  /**
   * For every result that is not a string, the number shown as a double and
   * the value of the measurement `decodeToMeasurement` gives are the same,
   * and a measurement is printed with its own unit.
   */
  lemma DisplaysAgree(result: OBDDecodeResult, parseDouble: string -> Wrappers.Option<real>,
                      formatDouble: real -> string)
    requires !result.StringResult?
    ensures DecodeMeasurementToDouble(Wrappers.Some(result), parseDouble) == DecodeToMeasurement(result).value.value
    ensures result.MeasurementResult? ==>
              DecodeMeasurementToString(Wrappers.Some(result), formatDouble) ==
              formatDouble(DecodeToMeasurement(result).value.value) + " " + Symbol(DecodeToMeasurement(result).value.unit)
  {
  }
}
