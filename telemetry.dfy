/**
 * The telemetry record of `mqtt_data_handler`: the nine-field string check
 * on the parsed JSON object, and the RS-232 frame that `sprintf` builds from
 * the nine values, with its inverse.
 */
module Telemetry {
  import opened Wrappers
  import opened CStrings
  import opened Json

  /** The nine string values of one accepted message, named after their JSON keys. */
  datatype Record = Record(
    deviceType: CString,
    deviceID: CString,
    currentQty: CString,
    setQty: CString,
    status: CString,
    temp: CString,
    bootTime: CString,
    runningTime: CString,
    errocode: CString)

  /** The keys looked up, in lookup order; "errocode" is spelled as the firmware spells it. */
  const LOOKUP_KEYS: seq<string> :=
    ["deviceType", "deviceID", "currentQty", "setQty", "status",
     "temp", "bootTime", "runningTime", "errocode"]

  /** The field of `r` that holds the value of JSON key `key`. */
  function FieldNamed(r: Record, key: string): CString
    requires key in LOOKUP_KEYS
  {
    if key == "deviceType" then r.deviceType
    else if key == "deviceID" then r.deviceID
    else if key == "currentQty" then r.currentQty
    else if key == "setQty" then r.setQty
    else if key == "status" then r.status
    else if key == "temp" then r.temp
    else if key == "bootTime" then r.bootTime
    else if key == "runningTime" then r.runningTime
    else r.errocode
  }

  /** Every one of the nine keys is present in `root` and names a string node. */
  predicate AllFieldsAreStrings<J>(root: J, getItem: (J, string) -> Option<Item>) {
    forall key :: key in LOOKUP_KEYS ==> IsString(getItem(root, key))
  }

  /**
   * The check of `mqtt_data_handler`: the nine lookups, then one combined
   * `cJSON_IsString` test. It is all-or-nothing and keeps no reason: a
   * missing key and a key of the wrong type give the same None. On success
   * every field of the record is the `valuestring` found under its key.
   */
  function Validate<J>(root: J, getItem: (J, string) -> Option<Item>): (r: Option<Record>)
    ensures r.Some? <==> AllFieldsAreStrings(root, getItem)
    ensures r.Some? ==> forall key :: key in LOOKUP_KEYS ==>
              getItem(root, key) == Some(StringItem(FieldNamed(r.value, key)))
  {
    var deviceTypeItem := getItem(root, "deviceType");
    var deviceIDItem := getItem(root, "deviceID");
    var currentQtyItem := getItem(root, "currentQty");
    var setQtyItem := getItem(root, "setQty");
    var statusItem := getItem(root, "status");
    var tempItem := getItem(root, "temp");
    var bootTimeItem := getItem(root, "bootTime");
    var runningTimeItem := getItem(root, "runningTime");
    var errocodeItem := getItem(root, "errocode");
    if !IsString(deviceIDItem) || !IsString(currentQtyItem) || !IsString(statusItem)
       || !IsString(deviceTypeItem) || !IsString(setQtyItem) || !IsString(tempItem)
       || !IsString(bootTimeItem) || !IsString(runningTimeItem) || !IsString(errocodeItem)
    then None
    else
      Some(Record(
        deviceTypeItem.value.valuestring, deviceIDItem.value.valuestring,
        currentQtyItem.value.valuestring, setQtyItem.value.valuestring,
        statusItem.value.valuestring, tempItem.value.valuestring,
        bootTimeItem.value.valuestring, runningTimeItem.value.valuestring,
        errocodeItem.value.valuestring))
  }

  /** The values in the order the frame carries them, which is not the lookup order. */
  function SerialFields(r: Record): seq<CString> {
    [r.deviceID, r.currentQty, r.status, r.deviceType, r.setQty,
     r.temp, r.bootTime, r.runningTime, r.errocode]
  }

  /** The record whose serial fields are `fields`. */
  function FromSerialFields(fields: seq<CString>): (r: Record)
    requires |fields| == 9
    ensures SerialFields(r) == fields
  {
    Record(fields[3], fields[0], fields[1], fields[4], fields[2],
           fields[5], fields[6], fields[7], fields[8])
  }

  /** The bytes of all nine values of a record together. */
  function ValuesLength(r: Record): nat {
    |r.deviceType| + |r.deviceID| + |r.currentQty| + |r.setQty| + |r.status|
    + |r.temp| + |r.bootTime| + |r.runningTime| + |r.errocode|
  }

  /** No value of `r` contains the byte `b`. */
  predicate ValuesExclude(r: Record, b: Byte) {
    forall i :: 0 <= i < 9 ==> b !in SerialFields(r)[i]
  }

  /**
   * The bytes the format "\x02%s'%s'%s'%s'%s'%s'%s'%s'%s\x0D" produces
   * from the nine values: STX, the values in serial order separated by
   * single quotes, CR. It contains no NUL, so `strlen` of the formatted
   * buffer is its length: 1 STX, 8 quotes and 1 CR around the values.
   */
  function Frame(r: Record): (f: CString)
    ensures |f| == 10 + ValuesLength(r)
    ensures f[0] == STX && f[|f| - 1] == CR
  {
    [STX] + r.deviceID + [QUOTE] + r.currentQty + [QUOTE] + r.status + [QUOTE]
    + r.deviceType + [QUOTE] + r.setQty + [QUOTE] + r.temp + [QUOTE] + r.bootTime
    + [QUOTE] + r.runningTime + [QUOTE] + r.errocode + [CR]
  }

  /** `parts` joined with one `sep` between neighbours. */
  function Join(parts: seq<seq<Byte>>, sep: Byte): seq<Byte>
  {
    if parts == [] then []
    else if |parts| == 1 then parts[0]
    else parts[0] + [sep] + Join(parts[1..], sep)
  }

  /**
   * `s` cut at every `sep`: what a receiver of the frame does to recover
   * the fields. There is always at least one part, and no part holds `sep`.
   */
  function Split(s: seq<Byte>, sep: Byte): (parts: seq<seq<Byte>>)
    ensures |parts| >= 1
    ensures forall i :: 0 <= i < |parts| ==> sep !in parts[i]
  {
    if s == [] then [[]]
    else
      var rest := Split(s[1..], sep);
      if s[0] == sep then
        assert forall i :: 1 <= i <= |rest| ==> ([[]] + rest)[i] == rest[i - 1];
        [[]] + rest
      else [[s[0]] + rest[0]] + rest[1..]
  }

  /**
   * The receiving side: check the STX and CR ends, split the inside on
   * single quotes and read the nine values back in serial order.
   */
  function Unframe(f: seq<Byte>): Option<Record>
  {
    if |f| < 2 || f[0] != STX || f[|f| - 1] != CR then None
    else
      var fields := Split(f[1..|f| - 1], QUOTE);
      if |fields| == 9 && forall i :: 0 <= i < 9 ==> NUL !in fields[i]
      then Some(FromSerialFields(fields))
      else None
  }

  /** The frame is STX, the serial fields joined by single quotes, and CR. */
  lemma FrameIsJoin(r: Record)
    ensures Frame(r) == [STX] + Join(SerialFields(r), QUOTE) + [CR]
  {
    JoinNine(r.deviceID, r.currentQty, r.status, r.deviceType, r.setQty,
             r.temp, r.bootTime, r.runningTime, r.errocode);
  }

  /** Nine parts joined, written out. */
  lemma JoinNine(a: seq<Byte>, b: seq<Byte>, c: seq<Byte>, d: seq<Byte>, e: seq<Byte>,
                 f: seq<Byte>, g: seq<Byte>, h: seq<Byte>, i: seq<Byte>)
    ensures Join([a, b, c, d, e, f, g, h, i], QUOTE)
         == a + [QUOTE] + (b + [QUOTE] + (c + [QUOTE] + (d + [QUOTE] + (e + [QUOTE]
            + (f + [QUOTE] + (g + [QUOTE] + (h + [QUOTE] + i)))))))
  {
    assert Join([i], QUOTE) == i;
    JoinCons(h, [i], QUOTE);
    JoinCons(g, [h, i], QUOTE);
    JoinCons(f, [g, h, i], QUOTE);
    JoinCons(e, [f, g, h, i], QUOTE);
    JoinCons(d, [e, f, g, h, i], QUOTE);
    JoinCons(c, [d, e, f, g, h, i], QUOTE);
    JoinCons(b, [c, d, e, f, g, h, i], QUOTE);
    JoinCons(a, [b, c, d, e, f, g, h, i], QUOTE);
  }

  /** Joining a first part onto at least one more puts one separator between them. */
  lemma JoinCons(x: seq<Byte>, rest: seq<seq<Byte>>, sep: Byte)
    requires rest != []
    ensures Join([x] + rest, sep) == x + [sep] + Join(rest, sep)
  {
    assert ([x] + rest)[1..] == rest;
  }

  /** A part without the separator splits into itself. */
  lemma {:induction false} SplitSinglePart(a: seq<Byte>, sep: Byte)
    requires sep !in a
    ensures Split(a, sep) == [a]
  {
    if a != [] {
      SplitSinglePart(a[1..], sep);
      assert [a[0]] + a[1..] == a;
    }
  }

  /** Splitting stops at the first separator and goes on with what follows it. */
  lemma {:induction false} SplitFirstPart(a: seq<Byte>, t: seq<Byte>, sep: Byte)
    requires sep !in a
    ensures Split(a + [sep] + t, sep) == [a] + Split(t, sep)
  {
    if a == [] {
      assert a + [sep] + t == [sep] + t;
      assert ([sep] + t)[1..] == t;
    } else {
      SplitFirstPart(a[1..], t, sep);
      assert (a + [sep] + t)[1..] == a[1..] + [sep] + t;
      assert [a[0]] + a[1..] == a;
    }
  }

  /** Splitting undoes joining when no part holds the separator. */
  lemma {:induction false} SplitJoin(parts: seq<seq<Byte>>, sep: Byte)
    requires |parts| >= 1
    requires forall i :: 0 <= i < |parts| ==> sep !in parts[i]
    ensures Split(Join(parts, sep), sep) == parts
  {
    if |parts| == 1 {
      SplitSinglePart(parts[0], sep);
    } else {
      SplitJoin(parts[1..], sep);
      SplitFirstPart(parts[0], Join(parts[1..], sep), sep);
      assert [parts[0]] + parts[1..] == parts;
    }
  }

  /** Joining undoes splitting, for every byte string. */
  lemma {:induction false} JoinSplit(s: seq<Byte>, sep: Byte)
    ensures Join(Split(s, sep), sep) == s
  {
    if s != [] {
      JoinSplit(s[1..], sep);
      var rest := Split(s[1..], sep);
      if s[0] == sep {
        assert ([[]] + rest)[1..] == rest;
      } else {
        var parts := [[s[0]] + rest[0]] + rest[1..];
        if |rest| == 1 {
          assert Join(parts, sep) == [s[0]] + rest[0];
        } else {
          assert parts[1..] == rest[1..];
          assert Join(rest, sep) == rest[0] + [sep] + Join(rest[1..], sep);
        }
        assert [s[0]] + s[1..] == s;
      }
    }
  }

  /**
   * The round trip of the frame: when no value contains a single quote the
   * receiver recovers exactly the record that was framed.
   */
  lemma FrameRoundTrip(r: Record)
    requires ValuesExclude(r, QUOTE)
    ensures Unframe(Frame(r)) == Some(r)
  {
    var f := Frame(r);
    FrameIsJoin(r);
    assert f[1..|f| - 1] == Join(SerialFields(r), QUOTE);
    SplitJoin(SerialFields(r), QUOTE);
  }

  /**
   * The other direction: every byte string the receiver accepts is the frame
   * of the record it yields, and that record has no single quote in a value.
   */
  lemma FrameOfUnframe(f: seq<Byte>)
    requires Unframe(f).Some?
    ensures Frame(Unframe(f).value) == f
    ensures ValuesExclude(Unframe(f).value, QUOTE)
  {
    var r := Unframe(f).value;
    var fields := Split(f[1..|f| - 1], QUOTE);
    FrameIsJoin(r);
    JoinSplit(f[1..|f| - 1], QUOTE);
    assert f == [f[0]] + f[1..|f| - 1] + [f[|f| - 1]];
    forall i | 0 <= i < 9
      ensures QUOTE !in SerialFields(r)[i]
    {
      assert SerialFields(r)[i] == fields[i];
    }
  }

  /**
   * When no value contains STX or CR, the frame holds STX only as its first
   * byte and CR only as its last, so a receiver can find frame boundaries.
   */
  lemma FrameEndsAreUnique(r: Record)
    requires ValuesExclude(r, STX) && ValuesExclude(r, CR)
    ensures var f := Frame(r);
            STX !in f[1..|f| - 1] && CR !in f[1..|f| - 1]
  {
    var f := Frame(r);
    FrameIsJoin(r);
    JoinExcludes(SerialFields(r), QUOTE, STX);
    JoinExcludes(SerialFields(r), QUOTE, CR);
    assert f[1..|f| - 1] == Join(SerialFields(r), QUOTE);
  }

  /** A byte that is neither the separator nor in any part is not in the joined string. */
  lemma {:induction false} JoinExcludes(parts: seq<seq<Byte>>, sep: Byte, b: Byte)
    requires b != sep
    requires forall i :: 0 <= i < |parts| ==> b !in parts[i]
    ensures b !in Join(parts, sep)
  {
    if |parts| > 1 {
      JoinExcludes(parts[1..], sep, b);
    }
  }
}
