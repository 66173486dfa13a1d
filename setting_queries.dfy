/**
 * The settings store: a table of `(key, value, type)` rows, a typed reader
 * (`get_setting_by_key`) and an in-place batch patch (`save_multiple_settings`).
 */
module SettingQueries {
  import opened Wrappers
  import opened PyText

  /** Every column of `settings` is a `VARCHAR(255)`. */
  const MaxColumnLength: nat := 255

  /** A row of the `settings` table. `typeName` is the `type` column. */
  datatype Setting = Setting(key: string, value: string, typeName: string)

  /** The table, by primary key. */
  type SettingTable = map<string, Setting>

  /** Text PostgreSQL accepts as a parameter: it rejects the NUL character in any text value. */
  predicate IsPgText(s: string)
  {
    forall i :: 0 <= i < |s| ==> s[i] != '\0'
  }

  predicate AllBlank(s: string)
  {
    forall i :: 0 <= i < |s| ==> s[i] == ' '
  }

  /** Text a `VARCHAR(255)` column can hold as it is. */
  predicate Fits(s: string)
  {
    IsPgText(s) && |s| <= MaxColumnLength
  }

  /**
   * What PostgreSQL stores when `v` is written to a `VARCHAR(255) NOT NULL`
   * column: `None` where it raises (NULL, a NUL character, or more than 255
   * characters); an over-long value whose excess is all spaces is silently
   * cut to 255 characters.
   */
  function StoreColumn(v: Option<string>): (r: Option<string>)
    ensures r.Some? ==> v.Some? && Fits(r.value)
    ensures r.Some? ==> r.value <= v.value && AllBlank(v.value[|r.value|..])
    ensures v.Some? && Fits(v.value) ==> r == v
  {
    if v.None? || !IsPgText(v.value) then None
    else if |v.value| <= MaxColumnLength then v
    else if AllBlank(v.value[MaxColumnLength..]) then Some(v.value[..MaxColumnLength])
    else None
  }

  /** `n` spaces. */
  function Spaces(n: nat): (r: string)
    ensures |r| == n && AllBlank(r)
  {
    seq(n, _ => ' ')
  }

  /**
   * Trailing spaces past the 255th character are dropped instead of
   * raising: `text` followed by any number of spaces is stored as `text`
   * followed by as many of them as fit.
   */
  lemma StoreColumnTrailingSpaces(text: string, n: nat)
    requires Fits(text)
    ensures StoreColumn(Some(text + Spaces(n)))
            == Some(text + Spaces(if |text| + n <= MaxColumnLength then n else MaxColumnLength - |text|))
  {
    var v := text + Spaces(n);
    assert IsPgText(v) by {
      forall i | 0 <= i < |v| ensures v[i] != '\0' {
        if i >= |text| { assert v[i] == Spaces(n)[i - |text|]; }
      }
    }
    if |v| > MaxColumnLength {
      var kept := MaxColumnLength - |text|;
      assert v[MaxColumnLength..] == Spaces(n)[kept..];
      assert v[..MaxColumnLength] == text + Spaces(kept);
    }
  }

  /** Any other value over 255 characters is refused. */
  lemma StoreColumnRejectsOverlong(v: string, i: nat)
    requires MaxColumnLength <= i < |v| && v[i] != ' '
    ensures StoreColumn(Some(v)) == None
  {
    assert v[MaxColumnLength..][i - MaxColumnLength] == v[i];
  }

  /** A NUL character anywhere in the value is refused, whatever its length. */
  lemma StoreColumnRejectsNul(before: string, after: string)
    ensures StoreColumn(Some(before + "\0" + after)) == None
  {
    var v := before + "\0" + after;
    assert v[|before|] == '\0';
  }

  /** What the database guarantees of the table: each row sits under its own key, and every column fits. */
  ghost predicate ValidTable(t: SettingTable)
  {
    forall k :: k in t ==> t[k].key == k && Fits(k) && Fits(t[k].value) && Fits(t[k].typeName)
  }

  // ---------------------------------------------------------------------
  // get_setting_by_key

  /** The value of a setting, converted according to its type tag. */
  datatype SettingValue =
    | IntValue(i: int)
    | FloatValue(literal: string)  // the text `float()` is applied to; not parsed here
    | BoolValue(b: bool)
    | StrValue(s: string)

  /** Why reading or writing a setting raises. */
  datatype SettingError =
    | InvalidIntLiteral(literal: string)  // `int()` raised `ValueError` on the stored text
    | NulInParameter                      // the key sent to PostgreSQL holds a NUL character

  /** The strings that, lower-cased, make a `"bool"` setting true. */
  const TruthyWords: set<string> := {"true", "1", "yes"}

  /** The conversion `get_setting_by_key` applies to a stored row. */
  function ConvertValue(s: Setting): Result<SettingValue, SettingError>
  {
    if s.typeName == "int" then
      match ParseInt(s.value)
      case Some(n) => Success(IntValue(n))
      case None => Failure(InvalidIntLiteral(s.value))
    else if s.typeName == "float" then
      Success(FloatValue(s.value))
    else if s.typeName == "bool" then
      Success(BoolValue(Lower(s.value) in TruthyWords))
    else
      Success(StrValue(s.value))
  }

  /**
   * `get_setting_by_key`: the query raises on a key PostgreSQL refuses;
   * otherwise `Success(None)` for a missing key, the converted value for a
   * present one, and `Failure` where the conversion raises.
   */
  function GetSettingByKey(table: SettingTable, key: string): (r: Result<Option<SettingValue>, SettingError>)
    ensures !IsPgText(key) ==> r == Failure(NulInParameter)
    ensures IsPgText(key) ==> (r == Success(None) <==> key !in table)
    ensures IsPgText(key) ==>
      (r.Failure? <==> key in table && table[key].typeName == "int" && ParseInt(table[key].value) == None)
    ensures key in table && r.Success? ==> r.value == Some(ConvertValue(table[key]).value)
  {
    if !IsPgText(key) then Failure(NulInParameter)
    else if key !in table then Success(None)
    else
      match ConvertValue(table[key])
      case Success(v) => Success(Some(v))
      case Failure(e) => Failure(e)
  }

  /** A `"bool"` setting is true exactly when its text is "true", "1" or "yes", ignoring case. */
  lemma ConvertBoolIff(key: string, value: string)
    ensures ConvertValue(Setting(key, value, "bool")) == Success(BoolValue(
              EqualIgnoringCase(value, "true") || value == "1" || EqualIgnoringCase(value, "yes")))
  {
    LowerEqualIff(value, "true");
    LowerEqualIff(value, "1");
    LowerEqualIff(value, "yes");
    assert EqualIgnoringCase(value, "1") <==> value == "1" by {
      if EqualIgnoringCase(value, "1") {
        assert LowerChar(value[0]) == '1';
      }
    }
  }

  /** Examples of `"bool"` settings: case does not matter, and anything else is false. */
  lemma ConvertBoolExamples(key: string)
    ensures ConvertValue(Setting(key, "TRUE", "bool")) == Success(BoolValue(true))
    ensures ConvertValue(Setting(key, "Yes", "bool")) == Success(BoolValue(true))
    ensures ConvertValue(Setting(key, "1", "bool")) == Success(BoolValue(true))
    ensures ConvertValue(Setting(key, "0", "bool")) == Success(BoolValue(false))
    ensures ConvertValue(Setting(key, "no", "bool")) == Success(BoolValue(false))
    ensures ConvertValue(Setting(key, "", "bool")) == Success(BoolValue(false))
    ensures ConvertValue(Setting(key, " true", "bool")) == Success(BoolValue(false))
  {
    ConvertBoolIff(key, "TRUE");
    ConvertBoolIff(key, "Yes");
    ConvertBoolIff(key, "1");
    ConvertBoolIff(key, "0");
    ConvertBoolIff(key, "no");
    ConvertBoolIff(key, "");
    ConvertBoolIff(key, " true");
    assert !EqualIgnoringCase(" true", "true");
    assert !EqualIgnoringCase("no", "yes") by { assert LowerChar("no"[0]) != LowerChar("yes"[0]); }
  }

  /** An `"int"` setting stored as `str(n)` reads back as `n`. */
  lemma ConvertIntRoundTrip(key: string, n: int)
    ensures ConvertValue(Setting(key, FormatInt(n), "int")) == Success(IntValue(n))
  {
    ParseIntOfFormat(n, "", "");
    assert "" + FormatInt(n) + "" == FormatInt(n);
  }

  /** A non-numeric `"int"` setting is an error, not a default value. */
  lemma ConvertIntRejects(key: string)
    ensures ConvertValue(Setting(key, "abc", "int")) == Failure(InvalidIntLiteral("abc"))
    ensures ConvertValue(Setting(key, "", "int")) == Failure(InvalidIntLiteral(""))
  {
  }

  /** Any tag other than "int", "float" and "bool" returns the stored text unchanged. */
  lemma ConvertOtherTags(s: Setting)
    requires s.typeName != "int" && s.typeName != "float" && s.typeName != "bool"
    ensures ConvertValue(s) == Success(StrValue(s.value))
  {
  }

  // ---------------------------------------------------------------------
  // save_multiple_settings

  /** The `type` values a client may send. */
  datatype SettingType = IntType | FloatType | StrType | BoolType

  /** The text the enum stores in the `type` column. */
  function TypeName(t: SettingType): string
  {
    match t
    case IntType => "int"
    case FloatType => "float"
    case StrType => "str"
    case BoolType => "bool"
  }

  /** Whether the client sent a field at all (pydantic's "fields set"). */
  datatype Field<T> = Unset | Set(sent: T)

  /**
   * One item of the patch payload. `value` is required but may be null;
   * `type` may be omitted, or sent, and then possibly as null.
   */
  datatype SettingPatch = SettingPatch(key: string, value: Option<string>, settingType: Field<Option<SettingType>>)

  /** One entry of `item.model_dump(exclude_unset=True)`, in declaration order. */
  datatype SentField =
    | KeyField(key: string)
    | ValueField(value: Option<string>)
    | TypeField(settingType: Option<SettingType>)

  /** `item.model_dump(exclude_unset=True)`: `key` and `value` always, `type` when it was sent. */
  function ModelDump(item: SettingPatch): seq<SentField>
  {
    [KeyField(item.key), ValueField(item.value)]
    + (match item.settingType case Unset => [] case Set(t) => [TypeField(t)])
  }

  /**
   * `setattr(setting, field, value)` for one dumped field, as the next flush
   * writes it: `None` when that flush fails (see `StoreColumn`; a sent type
   * is one of four short names and always fits). The `key` field is skipped.
   */
  function AssignField(s: Setting, f: SentField): Option<Setting>
  {
    match f
    case KeyField(_) => Some(s)
    case ValueField(v) =>
      (match StoreColumn(v)
       case None => None
       case Some(stored) => Some(s.(value := stored)))
    case TypeField(t) => if t.Some? then Some(s.(typeName := TypeName(t.value))) else None
  }

  function AssignFields(s: Setting, fs: seq<SentField>): Option<Setting>
  {
    if fs == [] then Some(s)
    else
      match AssignFields(s, fs[..|fs| - 1])
      case None => None
      case Some(s') => AssignField(s', fs[|fs| - 1])
  }

  /** An item whose assignments the database accepts. */
  predicate Writable(item: SettingPatch)
  {
    StoreColumn(item.value).Some? && item.settingType != Set(None)
  }

  /** An item that makes the transaction fail: its lookup raises, or its row's flush does. */
  predicate Fails(t: SettingTable, item: SettingPatch)
  {
    !IsPgText(item.key) || (item.key in t && !Writable(item))
  }

  /**
   * One item of the loop: the lookup raises on a key PostgreSQL refuses;
   * the item is skipped when its key is absent, else its sent fields are assigned.
   */
  function ApplyItem(t: SettingTable, item: SettingPatch): Option<SettingTable>
  {
    if !IsPgText(item.key) then None
    else if item.key !in t then Some(t)
    else
      match AssignFields(t[item.key], ModelDump(item))
      case None => None
      case Some(s) => Some(t[item.key := s])
  }

  /** The whole batch, in payload order; `None` when the transaction fails and nothing is committed. */
  function ApplyPatches(t: SettingTable, payload: seq<SettingPatch>): Option<SettingTable>
  {
    if payload == [] then Some(t)
    else
      match ApplyPatches(t, payload[..|payload| - 1])
      case None => None
      case Some(t') => ApplyItem(t', payload[|payload| - 1])
  }

  /** Patching one row: the key is kept, `value` is always assigned (as stored), `type` only when sent. */
  lemma PatchOneRow(s: Setting, item: SettingPatch)
    ensures AssignFields(s, ModelDump(item)).Some? <==> Writable(item)
    ensures Writable(item) ==>
      AssignFields(s, ModelDump(item)) == Some(Setting(
        s.key,
        StoreColumn(item.value).value,
        match item.settingType case Unset => s.typeName case Set(t) => TypeName(t.value)))
  {
    var fs := ModelDump(item);
    var keyAndValue := [KeyField(item.key), ValueField(item.value)];
    assert keyAndValue[..1] == [KeyField(item.key)] && [KeyField(item.key)][..0] == [];
    assert AssignFields(s, [KeyField(item.key)]) == Some(s);
    assert AssignFields(s, keyAndValue) == AssignField(s, ValueField(item.value));
    if item.settingType.Set? {
      assert fs[..2] == keyAndValue;
    } else {
      assert fs == keyAndValue;
    }
  }

  /** The batch never inserts or deletes a row. */
  lemma {:induction false} ApplyPatchesKeys(t: SettingTable, payload: seq<SettingPatch>)
    requires ApplyPatches(t, payload).Some?
    ensures ApplyPatches(t, payload).value.Keys == t.Keys
  {
    if payload != [] {
      ApplyPatchesKeys(t, payload[..|payload| - 1]);
    }
  }

  /** The batch keeps the table well formed; in particular no row's key is overwritten. */
  lemma {:induction false} ApplyPatchesValid(t: SettingTable, payload: seq<SettingPatch>)
    requires ValidTable(t)
    requires ApplyPatches(t, payload).Some?
    ensures ValidTable(ApplyPatches(t, payload).value)
  {
    if payload != [] {
      var prefix := payload[..|payload| - 1];
      ApplyPatchesValid(t, prefix);
      var t' := ApplyPatches(t, prefix).value;
      var item := payload[|payload| - 1];
      if item.key in t' {
        PatchOneRow(t'[item.key], item);
      }
    }
  }

  /**
   * The batch fails exactly when some item's key holds a NUL character, or
   * some item for an existing key writes a value or type the column refuses.
   */
  lemma {:induction false} ApplyPatchesFailsIff(t: SettingTable, payload: seq<SettingPatch>)
    ensures ApplyPatches(t, payload).None? <==> exists i :: 0 <= i < |payload| && Fails(t, payload[i])
  {
    if payload != [] {
      var prefix := payload[..|payload| - 1];
      var item := payload[|payload| - 1];
      ApplyPatchesFailsIff(t, prefix);
      if ApplyPatches(t, prefix).Some? {
        var t' := ApplyPatches(t, prefix).value;
        ApplyPatchesKeys(t, prefix);
        if IsPgText(item.key) && item.key in t' {
          PatchOneRow(t'[item.key], item);
        }
        if ApplyPatches(t, payload).None? {
          assert payload[|payload| - 1] == item;
        }
      } else {
        var i :| 0 <= i < |prefix| && Fails(t, prefix[i]);
        assert payload[i] == prefix[i];
      }
      if exists i :: 0 <= i < |payload| && Fails(t, payload[i]) {
        var i :| 0 <= i < |payload| && Fails(t, payload[i]);
        if i < |prefix| {
          assert prefix[i] == payload[i];
        }
      }
    }
  }

  /** A row whose key no item names is left unchanged. */
  lemma {:induction false} ApplyPatchesUntouched(t: SettingTable, payload: seq<SettingPatch>, k: string)
    requires ApplyPatches(t, payload).Some?
    requires k in t
    requires forall i :: 0 <= i < |payload| ==> payload[i].key != k
    ensures k in ApplyPatches(t, payload).value
    ensures ApplyPatches(t, payload).value[k] == t[k]
  {
    ApplyPatchesKeys(t, payload);
    if payload != [] {
      var prefix := payload[..|payload| - 1];
      assert forall i :: 0 <= i < |prefix| ==> prefix[i] == payload[i];
      ApplyPatchesUntouched(t, prefix, k);
      ApplyPatchesKeys(t, prefix);
    }
  }

  /** The value of a row is that of the last item naming its key, as stored: later items win. */
  lemma {:induction false} ApplyPatchesLastValue(t: SettingTable, payload: seq<SettingPatch>, i: nat)
    requires ApplyPatches(t, payload).Some?
    requires i < |payload| && payload[i].key in t
    requires forall j :: i < j < |payload| ==> payload[j].key != payload[i].key
    ensures payload[i].key in ApplyPatches(t, payload).value
    ensures StoreColumn(payload[i].value) == Some(ApplyPatches(t, payload).value[payload[i].key].value)
  {
    var k := payload[i].key;
    var prefix := payload[..|payload| - 1];
    var item := payload[|payload| - 1];
    ApplyPatchesKeys(t, payload);
    ApplyPatchesKeys(t, prefix);
    var t' := ApplyPatches(t, prefix).value;
    if i == |payload| - 1 {
      PatchOneRow(t'[k], item);
    } else {
      assert prefix[i] == payload[i];
      assert forall j :: i < j < |prefix| ==> prefix[j] == payload[j];
      ApplyPatchesLastValue(t, prefix, i);
    }
  }

  /** The type of a row is that of the last item naming its key that sent a type. */
  lemma {:induction false} ApplyPatchesLastType(t: SettingTable, payload: seq<SettingPatch>, i: nat)
    requires ApplyPatches(t, payload).Some?
    requires i < |payload| && payload[i].key in t && payload[i].settingType.Set?
    requires forall j :: i < j < |payload| && payload[j].key == payload[i].key ==> payload[j].settingType.Unset?
    ensures payload[i].key in ApplyPatches(t, payload).value
    ensures payload[i].settingType.sent.Some?
    ensures ApplyPatches(t, payload).value[payload[i].key].typeName == TypeName(payload[i].settingType.sent.value)
  {
    var k := payload[i].key;
    var prefix := payload[..|payload| - 1];
    var item := payload[|payload| - 1];
    ApplyPatchesKeys(t, payload);
    ApplyPatchesKeys(t, prefix);
    ApplyPatchesFailsIff(t, payload);
    var t' := ApplyPatches(t, prefix).value;
    if i == |payload| - 1 {
      PatchOneRow(t'[k], item);
    } else {
      assert prefix[i] == payload[i];
      assert forall j :: i < j < |prefix| ==> prefix[j] == payload[j];
      ApplyPatchesLastType(t, prefix, i);
      if item.key == k {
        PatchOneRow(t'[k], item);
      }
    }
  }

  /** A row keeps its type when no item naming its key sent one. */
  lemma {:induction false} ApplyPatchesTypeKept(t: SettingTable, payload: seq<SettingPatch>, k: string)
    requires ApplyPatches(t, payload).Some?
    requires k in t
    requires forall j :: 0 <= j < |payload| && payload[j].key == k ==> payload[j].settingType.Unset?
    ensures k in ApplyPatches(t, payload).value
    ensures ApplyPatches(t, payload).value[k].typeName == t[k].typeName
  {
    ApplyPatchesKeys(t, payload);
    if payload != [] {
      var prefix := payload[..|payload| - 1];
      var item := payload[|payload| - 1];
      assert forall j :: 0 <= j < |prefix| ==> prefix[j] == payload[j];
      ApplyPatchesTypeKept(t, prefix, k);
      ApplyPatchesKeys(t, prefix);
      var t' := ApplyPatches(t, prefix).value;
      if item.key == k {
        ApplyPatchesFailsIff(t, payload);
        PatchOneRow(t'[k], item);
      }
    }
  }

  /** A number saved with type "int" is what `get_setting_by_key` then returns. */
  lemma SavedIntReadsBack(t: SettingTable, key: string, n: int)
    requires key in t && IsPgText(key) && |FormatInt(n)| <= MaxColumnLength
    ensures ApplyPatches(t, [SettingPatch(key, Some(FormatInt(n)), Set(Some(IntType)))]).Some?
    ensures GetSettingByKey(ApplyPatches(t, [SettingPatch(key, Some(FormatInt(n)), Set(Some(IntType)))]).value, key)
            == Success(Some(IntValue(n)))
  {
    var item := SettingPatch(key, Some(FormatInt(n)), Set(Some(IntType)));
    assert [item][..0] == [];
    assert Fits(FormatInt(n)) by {
      var lit := FormatInt(n);
      forall i | 0 <= i < |lit| ensures lit[i] != '\0' {
        if n < 0 && i > 0 {
          assert lit[i] == FormatNat(-n)[i - 1];
        }
      }
    }
    PatchOneRow(t[key], item);
    ConvertIntRoundTrip(key, n);
  }

  /** The settings table as the application's session sees it. */
  class SettingStore {
    var rows: SettingTable

    ghost predicate Valid()
      reads this
    {
      ValidTable(rows)
    }

    constructor (initial: SettingTable)
      requires ValidTable(initial)
      ensures Valid() && rows == initial
    {
      rows := initial;
    }

    /**
     * `save_multiple_settings`: for each item in order, look its key up,
     * skip it when absent, else assign every sent field except `key`; then
     * commit. A key holding NUL makes the lookup raise; a value or type the
     * column refuses (see `StoreColumn`) makes the next flush raise. Either
     * way the session is closed without committing: `committed` is false
     * and the table is as before.
     */
    method SaveMultipleSettings(payload: seq<SettingPatch>) returns (committed: bool)
      requires Valid()
      modifies this
      ensures Valid()
      ensures committed == ApplyPatches(old(rows), payload).Some?
      ensures rows == if committed then ApplyPatches(old(rows), payload).value else old(rows)
    {
      var pending := rows;
      var i := 0;
      while i < |payload|
        invariant 0 <= i <= |payload|
        invariant ApplyPatches(rows, payload[..i]) == Some(pending)
      {
        var item := payload[i];
        assert payload[..i + 1][..i] == payload[..i];
        if !IsPgText(item.key) {
          FlushFails(rows, payload, i);
          return false;
        }
        if item.key in pending {
          var setting := pending[item.key];
          var fields := ModelDump(item);
          var j := 0;
          while j < |fields|
            invariant 0 <= j <= |fields|
            invariant AssignFields(pending[item.key], fields[..j]) == Some(setting)
          {
            assert fields[..j + 1][..j] == fields[..j];
            var f := fields[j];
            if !f.KeyField? {
              match f
              case ValueField(v) =>
                var stored := StoreColumn(v);
                if stored.None? {
                  FlushFails(rows, payload, i);
                  return false;
                }
                setting := setting.(value := stored.value);
              case TypeField(t) =>
                if t.None? {
                  FlushFails(rows, payload, i);
                  return false;
                }
                setting := setting.(typeName := TypeName(t.value));
            }
            j := j + 1;
          }
          assert fields[..j] == fields;
          pending := pending[item.key := setting];
        }
        i := i + 1;
      }
      assert payload[..i] == payload;
      ApplyPatchesValid(rows, payload);
      rows := pending;
      committed := true;
    }
  }

  /** An item that fails against the table reached so far makes the whole batch fail. */
  lemma FlushFails(t: SettingTable, payload: seq<SettingPatch>, i: nat)
    requires i < |payload|
    requires ApplyPatches(t, payload[..i]).Some?
    requires Fails(ApplyPatches(t, payload[..i]).value, payload[i])
    ensures ApplyPatches(t, payload).None?
  {
    ApplyPatchesKeys(t, payload[..i]);
    ApplyPatchesFailsIff(t, payload);
  }
}
