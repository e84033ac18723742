/**
  The registry key matcher of registry_audit.py: every value found under
  each audited auto-start key becomes one row (category, key path, value
  name, value data). The registry is an input: a map from a key to what
  opening it gives.
 */
module RegistryAudit {
  import opened Wrappers

  datatype Hive = CurrentUser | LocalMachine

  /** One entry of `AUDIT_KEYS`. */
  datatype AuditKey = AuditKey(root: Hive, path: string, description: string)

  const AuditKeys: seq<AuditKey> := [
    AuditKey(CurrentUser, @"Software\Microsoft\Windows\CurrentVersion\Run",
             "User Run (Auto-start apps at login)"),
    AuditKey(LocalMachine, @"Software\Microsoft\Windows\CurrentVersion\Run",
             "Machine Run (Auto-start apps for all users)"),
    AuditKey(LocalMachine, @"SYSTEM\CurrentControlSet\Services",
             "Installed Services"),
    AuditKey(LocalMachine, @"SOFTWARE\Microsoft\Windows NT\CurrentVersion\Winlogon",
             "Winlogon (Shell hijack risk)"),
    AuditKey(LocalMachine, @"SOFTWARE\Microsoft\Windows NT\CurrentVersion\Windows",
             "AppInit_DLLs (DLL injection risk)")
  ]

  /** What `EnumValue` gives for one index: name, data and the registry type code. */
  datatype RegValue = RegValue(name: string, data: string, kind: int)

  /**
    What `OpenKey` finds for a key that exists: its values in enumeration
    order, or a `PermissionError` when the caller may not read it.
   */
  datatype KeyState = Readable(values: seq<RegValue>) | Denied

  /** A key absent from the map does not exist (`FileNotFoundError`). */
  type Registry = map<(Hive, string), KeyState>

  datatype NamedValue = NamedValue(name: string, data: string)

  /** One row of the report table. */
  datatype Row = Row(category: string, path: string, name: string, data: string)

  /** The exception that escapes `audit_registry` and ends the run. */
  datatype AuditError = PermissionError(root: Hive, path: string)

  /** `EnumValue(key, i)`: the value at index `i`, or `None` where it raises `OSError`. */
  function EnumValue(values: seq<RegValue>, i: nat): Option<RegValue>
  {
    if i < |values| then Some(values[i]) else None
  }

  /** Every value of a key in index order, with its type left behind. */
  function Enumerated(values: seq<RegValue>): (r: seq<NamedValue>)
    ensures |r| == |values|
    ensures forall i :: 0 <= i < |values| ==> r[i] == NamedValue(values[i].name, values[i].data)
  {
    if values == [] then []
    else Enumerated(values[..|values| - 1]) + [NamedValue(values[|values| - 1].name, values[|values| - 1].data)]
  }

  /** What `read_registry_key` returns for a key, or the error it lets escape. */
  function KeyContents(reg: Registry, root: Hive, path: string): Result<seq<NamedValue>, AuditError>
  {
    if (root, path) !in reg then Ok([])
    else match reg[(root, path)]
      case Denied => Err(PermissionError(root, path))
      case Readable(values) => Ok(Enumerated(values))
  }

  /** `read_registry_key`: open the key and enumerate indices 0, 1, 2, ... until the first failure. */
  method ReadRegistryKey(reg: Registry, root: Hive, path: string) returns (r: Result<seq<NamedValue>, AuditError>)
    ensures r == KeyContents(reg, root, path)
  {
    if (root, path) !in reg {
      return Ok([]);
    }
    if reg[(root, path)].Denied? {
      return Err(PermissionError(root, path));
    }
    var values := reg[(root, path)].values;
    var results: seq<NamedValue> := [];
    var i := 0;
    while true
      invariant 0 <= i <= |values|
      invariant results == Enumerated(values[..i])
      decreases |values| - i
    {
      var v := EnumValue(values, i);
      if v.None? {
        break;
      }
      assert values[..i + 1][..i] == values[..i];
      results := results + [NamedValue(v.value.name, v.value.data)];
      i := i + 1;
    }
    assert values[..i] == values;
    r := Ok(results);
  }

  /** The rows for one audited key, each tagged with the key's description and path. */
  function KeyRows(key: AuditKey, values: seq<NamedValue>): (rows: seq<Row>)
    ensures |rows| == |values|
    ensures forall j :: 0 <= j < |values| ==>
      rows[j] == Row(key.description, key.path, values[j].name, values[j].data)
  {
    if values == [] then []
    else KeyRows(key, values[..|values| - 1]) + [Row(key.description, key.path, values[|values| - 1].name, values[|values| - 1].data)]
  }

  /** The audit so far, carried on by one more key. */
  function AddKey(reg: Registry, sofar: Result<seq<Row>, AuditError>, key: AuditKey): Result<seq<Row>, AuditError>
  {
    match sofar
    case Err(e) => Err(e)
    case Ok(rows) =>
      match KeyContents(reg, key.root, key.path)
      case Err(e) => Err(e)
      case Ok(values) => Ok(rows + KeyRows(key, values))
  }

  /** All rows of an audit over `keys`, or the first key whose opening is refused. */
  function AuditRows(reg: Registry, keys: seq<AuditKey>): Result<seq<Row>, AuditError>
  {
    if keys == [] then Ok([])
    else AddKey(reg, AuditRows(reg, keys[..|keys| - 1]), keys[|keys| - 1])
  }

  /** What `audit_registry` ends with: the "no suspicious entries" message, the table, or the escaping exception. */
  datatype Outcome = NoEntries | Entries(rows: seq<Row>) | Aborted(error: AuditError)

  function OutcomeOf(r: Result<seq<Row>, AuditError>): Outcome
  {
    match r
    case Err(e) => Aborted(e)
    case Ok(rows) => if rows == [] then NoEntries else Entries(rows)
  }

  /** `audit_registry` over the audited keys, in their order. */
  method AuditRegistry(reg: Registry, keys: seq<AuditKey>) returns (out: Outcome)
    ensures out == OutcomeOf(AuditRows(reg, keys))
  {
    var all: seq<Row> := [];
    for k := 0 to |keys|
      invariant AuditRows(reg, keys[..k]) == Ok(all)
    {
      var key := keys[k];
      var findings := ReadRegistryKey(reg, key.root, key.path);
      AuditRowsStep(reg, keys, k);
      if findings.Err? {
        AbortedPrefix(reg, keys, k + 1);
        return Aborted(findings.error);
      }
      if findings.value != [] {
        all := AppendRows(all, key, findings.value);
      } else {
        assert all + KeyRows(key, findings.value) == all;
      }
    }
    assert keys[..|keys|] == keys;
    out := if all == [] then NoEntries else Entries(all);
  }

  /** The inner loop of `audit_registry`: one row appended per value of a key. */
  method AppendRows(all: seq<Row>, key: AuditKey, values: seq<NamedValue>) returns (all': seq<Row>)
    ensures all' == all + KeyRows(key, values)
  {
    all' := all;
    for j := 0 to |values|
      invariant all' == all + KeyRows(key, values[..j])
    {
      assert values[..j + 1][..j] == values[..j];
      all' := all' + [Row(key.description, key.path, values[j].name, values[j].data)];
    }
    assert values[..|values|] == values;
  }

  /** Auditing one more key: the rows so far, then that key's rows, unless one of them is refused. */
  lemma AuditRowsStep(reg: Registry, keys: seq<AuditKey>, k: nat)
    requires k < |keys|
    ensures AuditRows(reg, keys[..k + 1]) == AddKey(reg, AuditRows(reg, keys[..k]), keys[k])
  {
    assert keys[..k + 1][..k] == keys[..k];
  }

  /** Once a key is refused, the whole audit ends with that error. */
  lemma {:induction false} AbortedPrefix(reg: Registry, keys: seq<AuditKey>, n: nat)
    requires n <= |keys| && AuditRows(reg, keys[..n]).Err?
    ensures AuditRows(reg, keys) == AuditRows(reg, keys[..n])
    decreases |keys| - n
  {
    if n < |keys| {
      assert keys[..n + 1][..n] == keys[..n];
      AbortedPrefix(reg, keys, n + 1);
    } else {
      assert keys[..n] == keys;
    }
  }

  /** Number of values a key contributes: zero when it is missing or refused. */
  function ValueCount(reg: Registry, key: AuditKey): nat {
    if (key.root, key.path) in reg && reg[(key.root, key.path)].Readable?
    then |reg[(key.root, key.path)].values|
    else 0
  }

  function TotalValues(reg: Registry, keys: seq<AuditKey>): nat {
    if keys == [] then 0 else TotalValues(reg, keys[..|keys| - 1]) + ValueCount(reg, keys[|keys| - 1])
  }

  /** Auditing two runs of keys is auditing each in turn and concatenating the rows. */
  lemma {:induction false} AuditRowsAppend(reg: Registry, a: seq<AuditKey>, b: seq<AuditKey>)
    requires AuditRows(reg, a).Ok? && AuditRows(reg, b).Ok?
    ensures AuditRows(reg, a + b) == Ok(AuditRows(reg, a).value + AuditRows(reg, b).value)
    decreases |b|
  {
    if b == [] {
      assert a + b == a;
      assert AuditRows(reg, a).value + [] == AuditRows(reg, a).value;
    } else {
      var b' := b[..|b| - 1];
      var last := b[|b| - 1];
      assert AuditRows(reg, b) == AddKey(reg, AuditRows(reg, b'), last);
      assert AuditRows(reg, b').Ok?;
      assert AuditRows(reg, a + b) == AddKey(reg, AuditRows(reg, a + b'), last) by {
        assert (a + b)[..|a + b| - 1] == a + b';
        assert (a + b)[|a + b| - 1] == last;
      }
      AuditRowsAppend(reg, a, b');
      AddKeyAssociative(reg, AuditRows(reg, a).value, AuditRows(reg, b').value, last);
    }
  }

  /** Carrying on by one key commutes with putting rows in front. */
  lemma AddKeyAssociative(reg: Registry, front: seq<Row>, rows: seq<Row>, key: AuditKey)
    requires AddKey(reg, Ok(rows), key).Ok?
    ensures AddKey(reg, Ok(front + rows), key) == Ok(front + AddKey(reg, Ok(rows), key).value)
  {
    var values := KeyContents(reg, key.root, key.path).value;
    assert (front + rows) + KeyRows(key, values) == front + (rows + KeyRows(key, values));
  }

  /** A successful audit has exactly one row per enumerated value. */
  lemma {:induction false} RowCount(reg: Registry, keys: seq<AuditKey>)
    requires AuditRows(reg, keys).Ok?
    ensures |AuditRows(reg, keys).value| == TotalValues(reg, keys)
    decreases |keys|
  {
    if keys != [] {
      RowCount(reg, keys[..|keys| - 1]);
    }
  }

  /**
    Rows follow the order of the audited keys, then the enumeration order:
    value `j` of key `k` is the row right after all rows of the keys before `k`.
   */
  lemma RowPosition(reg: Registry, keys: seq<AuditKey>, k: nat, j: nat)
    requires AuditRows(reg, keys).Ok?
    requires k < |keys| && j < ValueCount(reg, keys[k])
    ensures TotalValues(reg, keys[..k]) + j < |AuditRows(reg, keys).value|
    ensures
      var key := keys[k];
      var v := reg[(key.root, key.path)].values[j];
      AuditRows(reg, keys).value[TotalValues(reg, keys[..k]) + j] == Row(key.description, key.path, v.name, v.data)
  {
    var front := keys[..k + 1];
    assert front[..k] == keys[..k] && front[k] == keys[k];
    PrefixRows(reg, keys, k + 1);
    LastKeyRow(reg, front, j);
  }

  /** The rows of a prefix of the keys are the first rows of the whole audit. */
  lemma PrefixRows(reg: Registry, keys: seq<AuditKey>, n: nat)
    requires n <= |keys| && AuditRows(reg, keys).Ok?
    ensures AuditRows(reg, keys[..n]).Ok?
    ensures |AuditRows(reg, keys[..n]).value| <= |AuditRows(reg, keys).value|
    ensures AuditRows(reg, keys).value[..|AuditRows(reg, keys[..n]).value|] == AuditRows(reg, keys[..n]).value
  {
    var front, rest := keys[..n], keys[n..];
    assert keys == front + rest;
    OkPrefix(reg, keys, n);
    OkSuffix(reg, keys, n);
    AuditRowsAppend(reg, front, rest);
  }

  /** The rows of the last audited key come right after the rows of all the keys before it. */
  lemma LastKeyRow(reg: Registry, keys: seq<AuditKey>, j: nat)
    requires keys != [] && AuditRows(reg, keys).Ok?
    requires j < ValueCount(reg, keys[|keys| - 1])
    ensures TotalValues(reg, keys[..|keys| - 1]) + j < |AuditRows(reg, keys).value|
    ensures
      var key := keys[|keys| - 1];
      var v := reg[(key.root, key.path)].values[j];
      AuditRows(reg, keys).value[TotalValues(reg, keys[..|keys| - 1]) + j] == Row(key.description, key.path, v.name, v.data)
  {
    var init, key := keys[..|keys| - 1], keys[|keys| - 1];
    assert AuditRows(reg, keys) == AddKey(reg, AuditRows(reg, init), key);
    var before := AuditRows(reg, init).value;
    var vals := Enumerated(reg[(key.root, key.path)].values);
    assert KeyContents(reg, key.root, key.path) == Ok(vals);
    assert AuditRows(reg, keys).value == before + KeyRows(key, vals);
    RowCount(reg, init);
    assert |before| == TotalValues(reg, init);
  }

  /** A successful audit succeeded on every prefix of its keys. */
  lemma {:induction false} OkPrefix(reg: Registry, keys: seq<AuditKey>, n: nat)
    requires n <= |keys| && AuditRows(reg, keys).Ok?
    ensures AuditRows(reg, keys[..n]).Ok?
  {
    if AuditRows(reg, keys[..n]).Err? {
      AbortedPrefix(reg, keys, n);
    }
  }

  /** A successful audit succeeds on every suffix of its keys. */
  lemma {:induction false} OkSuffix(reg: Registry, keys: seq<AuditKey>, n: nat)
    requires n <= |keys| && AuditRows(reg, keys).Ok?
    ensures AuditRows(reg, keys[n..]).Ok?
    decreases |keys|
  {
    if n < |keys| {
      var init := keys[..|keys| - 1];
      OkPrefix(reg, keys, |keys| - 1);
      OkSuffix(reg, init, n);
      assert keys[n..][..|keys[n..]| - 1] == init[n..];
    }
  }

  /** The audit is aborted exactly when some audited key is refused; otherwise every key was read. */
  lemma {:induction false} AbortedIff(reg: Registry, keys: seq<AuditKey>)
    ensures AuditRows(reg, keys).Err? <==>
      exists k :: 0 <= k < |keys| && (keys[k].root, keys[k].path) in reg && reg[(keys[k].root, keys[k].path)].Denied?
    decreases |keys|
  {
    if keys != [] {
      var init := keys[..|keys| - 1];
      AbortedIff(reg, init);
      forall k | 0 <= k < |init| ensures init[k] == keys[k] { }
    }
  }

  /** "No suspicious entries" is reported exactly when no audited key is refused and none holds a value. */
  lemma {:induction false} NoEntriesIff(reg: Registry, keys: seq<AuditKey>)
    requires AuditRows(reg, keys).Ok?
    ensures OutcomeOf(AuditRows(reg, keys)).NoEntries? <==> forall k :: 0 <= k < |keys| ==> ValueCount(reg, keys[k]) == 0
    decreases |keys|
  {
    RowCount(reg, keys);
    if keys != [] {
      var init := keys[..|keys| - 1];
      OkPrefix(reg, keys, |keys| - 1);
      NoEntriesIff(reg, init);
      RowCount(reg, init);
      forall k | 0 <= k < |init| ensures init[k] == keys[k] { }
    }
  }

  /** A key that is missing and a key that exists without values contribute the same: nothing. */
  lemma MissingKeyLikeEmptyKey(reg: Registry, keys: seq<AuditKey>, root: Hive, path: string)
    requires (root, path) !in reg
    ensures AuditRows(reg, keys) == AuditRows(reg[(root, path) := Readable([])], keys)
  {
    var reg' := reg[(root, path) := Readable([])];
    forall key | key in keys ensures KeyContents(reg, key.root, key.path) == KeyContents(reg', key.root, key.path) { }
    SameContentsSameRows(reg, reg', keys);
  }

  lemma {:induction false} SameContentsSameRows(reg: Registry, reg': Registry, keys: seq<AuditKey>)
    requires forall key | key in keys :: KeyContents(reg, key.root, key.path) == KeyContents(reg', key.root, key.path)
    ensures AuditRows(reg, keys) == AuditRows(reg', keys)
    decreases |keys|
  {
    if keys != [] {
      var init := keys[..|keys| - 1];
      assert keys[|keys| - 1] in keys;
      forall key | key in init ensures key in keys { }
      SameContentsSameRows(reg, reg', init);
    }
  }

  /** A key with three values gives three rows, in enumeration order, tagged with the key. */
  lemma ThreeValuesThreeRows(key: AuditKey, x: RegValue, y: RegValue, z: RegValue)
    ensures AuditRows(map[(key.root, key.path) := Readable([x, y, z])], [key]) == Ok([
      Row(key.description, key.path, x.name, x.data),
      Row(key.description, key.path, y.name, y.data),
      Row(key.description, key.path, z.name, z.data)])
  {
    var reg := map[(key.root, key.path) := Readable([x, y, z])];
    var named := [NamedValue(x.name, x.data), NamedValue(y.name, y.data), NamedValue(z.name, z.data)];
    assert Enumerated([x, y, z]) == named;
    var rows := KeyRows(key, named);
    assert rows == [
      Row(key.description, key.path, x.name, x.data),
      Row(key.description, key.path, y.name, y.data),
      Row(key.description, key.path, z.name, z.data)];
    assert [key][..0] == [];
    assert KeyContents(reg, key.root, key.path) == Ok(Enumerated([x, y, z]));
    assert AuditRows(reg, [key]) == Ok([] + rows);
    assert [] + rows == rows;
  }

  /**
    The user and machine Run keys share their path: the rows they give for
    the same value differ only in the category column.
   */
  lemma RunKeysDifferOnlyInCategory(v: NamedValue)
    ensures AuditKeys[0].root != AuditKeys[1].root
    ensures
      var user := KeyRows(AuditKeys[0], [v])[0];
      var machine := KeyRows(AuditKeys[1], [v])[0];
      user.path == machine.path && user.name == machine.name && user.data == machine.data
      && user.category != machine.category
  {
    var user, machine := AuditKeys[0], AuditKeys[1];
    assert user.description[0] == 'U' && machine.description[0] == 'M';
  }

  /** A host on which none of the audited keys exists reports no suspicious entries. */
  lemma EmptyRegistryNoEntries()
    ensures OutcomeOf(AuditRows(map[], AuditKeys)) == NoEntries
  {
    var reg: Registry := map[];
    AbortedIff(reg, AuditKeys);
    NoEntriesIff(reg, AuditKeys);
  }
}
