/**
 * simpleBuf, the buffer a processing unit carries: the raw bytes and a list
 * of named fields, each with a value and a flag that hides it from the
 * comma-separated text forms. Setting an existing name overwrites its value
 * and flag in place; a new name is appended, so names stay distinct and
 * keep the order in which they were first set.
 */
module Buffers {
  import opened Wrappers
  import opened Bits
  import opened Text

  /** A field value: the buffer's users store ints and strings; any other value prints nothing. */
  datatype Datum = IntVal(i: int) | StrVal(s: string) | OtherVal

  /** The position of the first key equal to name, -1 when there is none. */
  function IndexOf(keys: seq<string>, name: string): (i: int)
    ensures -1 <= i < |keys|
    ensures i >= 0 ==> keys[i] == name && name !in keys[..i]
    ensures i < 0 <==> name !in keys
  {
    if keys == [] then -1
    else if keys[0] == name then 0
    else
      var j := IndexOf(keys[1..], name);
      assert keys[1..][..j + 1] == keys[1..j + 2];
      if j < 0 then -1 else j + 1
  }

  /** The text ToString makes of one field: ints in decimal, strings as they are, nothing for other values. */
  function DatumText(d: Datum): seq<string>
  {
    match d
    case IntVal(i) => [Itoa(i)]
    case StrVal(s) => [s]
    case OtherVal => []
  }

  /** The texts of the values whose flag is clear, in field order. */
  function Shown(vals: seq<Datum>, ignore: seq<bool>): seq<string>
    requires |vals| == |ignore|
  {
    if vals == [] then []
    else
      var n := |vals| - 1;
      Shown(vals[..n], ignore[..n]) + (if ignore[n] then [] else DatumText(vals[n]))
  }

  /** The names whose flag is clear, in field order. */
  function ShownKeys(keys: seq<string>, ignore: seq<bool>): seq<string>
    requires |keys| == |ignore|
  {
    if keys == [] then []
    else
      var n := |keys| - 1;
      ShownKeys(keys[..n], ignore[..n]) + (if ignore[n] then [] else [keys[n]])
  }

  /** A hidden field adds nothing to either text form; a shown one adds its name and its value's text. */
  lemma ShownAppend(keys: seq<string>, vals: seq<Datum>, ignore: seq<bool>, k: string, d: Datum, skip: bool)
    requires |keys| == |vals| == |ignore|
    ensures Shown(vals + [d], ignore + [skip]) == Shown(vals, ignore) + (if skip then [] else DatumText(d))
    ensures ShownKeys(keys + [k], ignore + [skip]) == ShownKeys(keys, ignore) + (if skip then [] else [k])
  {
    assert (vals + [d])[..|vals|] == vals;
    assert (keys + [k])[..|keys|] == keys;
    assert (ignore + [skip])[..|ignore|] == ignore;
  }

  predicate Distinct(keys: seq<string>)
  {
    forall i, j | 0 <= i < j < |keys| :: keys[i] != keys[j]
  }

  class SimpleBuf {
    var dataKey: seq<string>
    var dataVal: seq<Datum>
    var jsonIgnore: seq<bool>
    var buf: seq<byte>

    /** The three field lists run in parallel and no name occurs twice. */
    ghost predicate Valid()
      reads this
    {
      |dataKey| == |dataVal| == |jsonIgnore| && Distinct(dataKey)
    }

    /** The value stored under name, if any. */
    function Get(name: string): (r: Option<Datum>)
      reads this
      requires Valid()
      ensures r.Some? <==> name in dataKey
    {
      var i := IndexOf(dataKey, name);
      if i < 0 then None else Some(dataVal[i])
    }

    /** Whether the field under name is hidden from the text forms. */
    function Hidden(name: string): bool
      reads this
      requires Valid()
    {
      var i := IndexOf(dataKey, name);
      i >= 0 && jsonIgnore[i]
    }

    /** MakeSimpleBuf: the given bytes and no fields. */
    constructor (inBuf: seq<byte>)
      ensures Valid()
      ensures dataKey == [] && dataVal == [] && jsonIgnore == [] && buf == inBuf
    {
      dataKey, dataVal, jsonIgnore, buf := [], [], [], inBuf;
    }

    function GetBuf(): seq<byte>
      reads this
    {
      buf
    }

    method ResetBuf(newBuf: seq<byte>)
      modifies this
      ensures buf == newBuf
      ensures dataKey == old(dataKey) && dataVal == old(dataVal) && jsonIgnore == old(jsonIgnore)
    {
      buf := newBuf;
    }

    /** The first position of name among the keys, found by a scan that stops at the first match. */
    method FindField(name: string) returns (fieldIdx: int)
      ensures fieldIdx == IndexOf(dataKey, name)
    {
      fieldIdx := -1;
      var idx := 0;
      while idx < |dataKey|
        invariant 0 <= idx <= |dataKey|
        invariant name !in dataKey[..idx]
        decreases |dataKey| - idx
      {
        if dataKey[idx] == name {
          fieldIdx := idx;
          break;
        }
        assert dataKey[..idx + 1] == dataKey[..idx] + [dataKey[idx]];
        idx := idx + 1;
      }
      if fieldIdx < 0 {
        assert dataKey[..idx] == dataKey;
      }
      FirstIndex(dataKey, name, fieldIdx);
    }

    /**
     * SetField: an existing name gets the new value and flag in place; a new
     * name is appended with them. Afterwards name holds datum and every
     * other name holds what it held.
     */
    method SetField(name: string, datum: Datum, ignore: bool)
      requires Valid()
      modifies this
      ensures Valid() && buf == old(buf)
      ensures Get(name) == Some(datum) && Hidden(name) == ignore
      ensures forall other | other != name :: Get(other) == old(Get(other)) && Hidden(other) == old(Hidden(other))
      ensures name in old(dataKey) ==> dataKey == old(dataKey)
      ensures name !in old(dataKey) ==>
        dataKey == old(dataKey) + [name] && dataVal == old(dataVal) + [datum] && jsonIgnore == old(jsonIgnore) + [ignore]
    {
      var fieldIdx := FindField(name);
      if fieldIdx == -1 {
        AppendNew(dataKey, name);
        dataKey := dataKey + [name];
        dataVal := dataVal + [datum];
        jsonIgnore := jsonIgnore + [ignore];
      } else {
        dataVal := dataVal[fieldIdx := datum];
        jsonIgnore := jsonIgnore[fieldIdx := ignore];
      }
      forall other | other != name
        ensures Get(other) == old(Get(other)) && Hidden(other) == old(Hidden(other))
      {
        OtherIndex(old(dataKey), dataKey, name, other);
        var i := IndexOf(dataKey, other);
        if i >= 0 {
          assert dataVal[i] == old(dataVal)[i] && jsonIgnore[i] == old(jsonIgnore)[i];
        }
      }
    }

    /** GetField: the value under name and true, or nothing and false. */
    method GetField(name: string) returns (v: Option<Datum>, found: bool)
      requires Valid()
      ensures v == Get(name) && (found <==> name in dataKey)
    {
      var i := 0;
      while i < |dataKey|
        invariant 0 <= i <= |dataKey|
        invariant name !in dataKey[..i]
        decreases |dataKey| - i
      {
        if dataKey[i] == name {
          FirstIndex(dataKey, name, i);
          return Some(dataVal[i]), true;
        }
        assert dataKey[..i + 1] == dataKey[..i] + [dataKey[i]];
        i := i + 1;
      }
      assert dataKey[..i] == dataKey;
      return None, false;
    }

    /** ToString: the shown values, joined by commas, then a newline. */
    method ToString() returns (rv: string)
      requires Valid()
      ensures rv == Join(Shown(dataVal, jsonIgnore), ",") + "\n"
    {
      var valArr: seq<string> := [];
      var idx := 0;
      while idx < |dataVal|
        invariant 0 <= idx <= |dataVal|
        invariant valArr == Shown(dataVal[..idx], jsonIgnore[..idx])
        decreases |dataVal| - idx
      {
        ShownStep(dataVal, jsonIgnore, idx);
        if !jsonIgnore[idx] {
          match dataVal[idx]
          case IntVal(val) => valArr := valArr + [Itoa(val)];
          case StrVal(val) => valArr := valArr + [val];
          case OtherVal =>
        }
        idx := idx + 1;
      }
      assert dataVal[..idx] == dataVal && jsonIgnore[..idx] == jsonIgnore;
      rv := Join(valArr, ",") + "\n";
    }

    /** GetFieldAsString: the shown names, joined by commas, then a newline. */
    method GetFieldAsString() returns (rv: string)
      requires Valid()
      ensures rv == Join(ShownKeys(dataKey, jsonIgnore), ",") + "\n"
    {
      var keyArr: seq<string> := [];
      var idx := 0;
      while idx < |dataKey|
        invariant 0 <= idx <= |dataKey|
        invariant keyArr == ShownKeys(dataKey[..idx], jsonIgnore[..idx])
        decreases |dataKey| - idx
      {
        KeysStep(dataKey, jsonIgnore, idx);
        if !jsonIgnore[idx] {
          keyArr := keyArr + [dataKey[idx]];
        }
        idx := idx + 1;
      }
      assert dataKey[..idx] == dataKey && jsonIgnore[..idx] == jsonIgnore;
      rv := Join(keyArr, ",") + "\n";
    }
  }

  /** GetBufFieldAsInt: the int under name and true, or 0 and false when it is missing or not an int. */
  method GetBufFieldAsInt(b: SimpleBuf, name: string) returns (rv: int, ok: bool)
    requires b.Valid()
    ensures ok <==> b.Get(name).Some? && b.Get(name).value.IntVal?
    ensures rv == if ok then b.Get(name).value.i else 0
  {
    var field, found := b.GetField(name);
    rv, ok := 0, false;
    if field.Some? && field.value.IntVal? {
      rv, ok := field.value.i, found;
    }
  }

  /** GetBufFieldAsString: the string under name and true, or "" and false when it is missing or not a string. */
  method GetBufFieldAsString(b: SimpleBuf, name: string) returns (rv: string, ok: bool)
    requires b.Valid()
    ensures ok <==> b.Get(name).Some? && b.Get(name).value.StrVal?
    ensures rv == if ok then b.Get(name).value.s else ""
  {
    var field, found := b.GetField(name);
    rv, ok := "", false;
    if field.Some? && field.value.StrVal? {
      rv, ok := field.value.s, found;
    }
  }

  /** A position holding name with no earlier occurrence is IndexOf's answer; -1 when name is absent. */
  lemma FirstIndex(keys: seq<string>, name: string, i: int)
    requires -1 <= i < |keys|
    requires i >= 0 ==> keys[i] == name && name !in keys[..i]
    requires i < 0 ==> name !in keys
    ensures IndexOf(keys, name) == i
  {
  }

  lemma AppendNew(keys: seq<string>, name: string)
    requires Distinct(keys) && name !in keys
    ensures Distinct(keys + [name])
  {
    var s := keys + [name];
    forall i, j | 0 <= i < j < |s|
      ensures s[i] != s[j]
    {
      if j == |keys| {
        assert s[i] == keys[i];
      }
    }
  }

  /** After SetField(name, ...) the keys are the same or have name appended, so other names keep their positions. */
  lemma OtherIndex(keys: seq<string>, keys': seq<string>, name: string, other: string)
    requires keys' == keys || keys' == keys + [name]
    requires other != name
    ensures IndexOf(keys', other) == IndexOf(keys, other)
  {
    var i := IndexOf(keys, other);
    if keys' != keys {
      if i >= 0 {
        assert keys'[..i] == keys[..i];
      }
      FirstIndex(keys', other, i);
    }
  }

  lemma ShownStep(vals: seq<Datum>, ignore: seq<bool>, i: nat)
    requires |vals| == |ignore| && i < |vals|
    ensures Shown(vals[..i + 1], ignore[..i + 1]) == Shown(vals[..i], ignore[..i]) + (if ignore[i] then [] else DatumText(vals[i]))
  {
    assert vals[..i + 1][..i] == vals[..i];
    assert ignore[..i + 1][..i] == ignore[..i];
  }

  lemma KeysStep(keys: seq<string>, ignore: seq<bool>, i: nat)
    requires |keys| == |ignore| && i < |keys|
    ensures ShownKeys(keys[..i + 1], ignore[..i + 1]) == ShownKeys(keys[..i], ignore[..i]) + (if ignore[i] then [] else [keys[i]])
  {
    assert keys[..i + 1][..i] == keys[..i];
    assert ignore[..i + 1][..i] == ignore[..i];
  }

  /**
   * A buffer over [1, 2, 3] with a hidden field dummy2 = 50 and a shown field
   * dummy = 100 prints "dummy\n" and "100\n", keeps its bytes, and has no field hi.
   */
  method HiddenFieldExample() returns (names: string, values: string, bytes: seq<byte>, hi: bool, dummy: Option<Datum>)
    ensures names == "dummy\n" && values == "100\n" && bytes == [1, 2, 3] && !hi && dummy == Some(IntVal(100))
  {
    var b := new SimpleBuf([1, 2, 3]);
    b.SetField("dummy2", IntVal(50), true);
    b.SetField("dummy", IntVal(100), false);
    ExampleTexts(b.dataKey, b.dataVal, b.jsonIgnore);
    var present;
    dummy, present := b.GetField("dummy");
    bytes := b.GetBuf();
    names := b.GetFieldAsString();
    values := b.ToString();
    var none;
    none, hi := b.GetField("hi");
  }

  /** The two text forms of the example's fields. */
  lemma ExampleTexts(keys: seq<string>, vals: seq<Datum>, ignore: seq<bool>)
    requires keys == ["dummy2", "dummy"] && vals == [IntVal(50), IntVal(100)] && ignore == [true, false]
    ensures Join(ShownKeys(keys, ignore), ",") + "\n" == "dummy\n"
    ensures Join(Shown(vals, ignore), ",") + "\n" == "100\n"
  {
    ShownAppend(["dummy2"], [IntVal(50)], [true], "dummy", IntVal(100), false);
    ShownAppend([], [], [], "dummy2", IntVal(50), true);
    HundredText();
    JoinOne(["dummy"], ",");
    JoinOne(["100"], ",");
  }

  lemma HundredText()
    ensures Itoa(100) == "100"
  {
    var one, ten := 1, 10;
    assert DecimalDigits(one) == "1";
    assert DecimalDigits(ten) == DecimalDigits(one) + "0";
    assert DecimalDigits(100) == DecimalDigits(ten) + "0";
  }

  lemma JoinOne(parts: seq<string>, sep: string)
    requires |parts| == 1
    ensures Join(parts, sep) == parts[0]
  {
  }
}
